/**
 Port leases: `getRandomPort` of utils/src/net.ts. Calls run interleaved; between asking the operating
 system for a port and looking it up in the shared table any other call may run. The segment from one
 answer to the next wait is atomic, and it is the step of the system below.
 */
module PortLease {
  import opened Wrappers

  /** A zero stands for an option left out. */
  datatype Options = Options(maxRetries: int, timeout: nat)

  function MaxRetries(o: Options): int { if o.maxRetries == 0 then 10 else o.maxRetries }

  function Timeout(o: Options): nat { if o.timeout == 0 then 10 * 60 * 1000 else o.timeout }

  datatype Status = Waiting | Granted(port: nat) | Exhausted | Broken

  datatype Call = Call(maxRetries: int, timeout: nat, retries: int, status: Status)

  /** One look into the table: the port the system answered, and what became of it. */
  datatype Probe = Probe(call: nat, port: nat, now: int, timeout: nat, granted: bool)

  datatype State = State(used: map<nat, int>, calls: seq<Call>, history: seq<Probe>)

  datatype Event = Open(options: Options) | Answer(call: nat, port: nat, now: int) | ServerError(call: nat)

  const INITIAL := State(map[], [], [])

  // ---- steps

  predicate Free(used: map<nat, int>, port: nat, now: int) { port !in used || used[port] < now }

  /** A call up to its first wait. */
  function Opened(o: Options): Call {
    if 0 < MaxRetries(o) then Call(MaxRetries(o), Timeout(o), 1, Waiting)
    else Call(MaxRetries(o), Timeout(o), 0, Exhausted)
  }

  /** A call after a port it could not have. */
  function Denied(c: Call): Call {
    if c.retries < c.maxRetries then c.(retries := c.retries + 1) else c.(status := Exhausted)
  }

  predicate Enabled(s: State, e: Event) {
    match e
    case Open(_) => true
    case Answer(c, _, _) => c < |s.calls| && s.calls[c].status == Waiting
    case ServerError(c) => c < |s.calls| && s.calls[c].status == Waiting
  }

  function Apply(s: State, e: Event): State
    requires Enabled(s, e)
  {
    match e
    case Open(o) => s.(calls := s.calls + [Opened(o)])
    case Answer(c, port, now) =>
      var call := s.calls[c];
      if Free(s.used, port, now) then
        State(s.used[port := now + call.timeout], s.calls[c := call.(status := Granted(port))],
              s.history + [Probe(c, port, now, call.timeout, true)])
      else
        State(s.used, s.calls[c := Denied(call)], s.history + [Probe(c, port, now, call.timeout, false)])
    case ServerError(c) => s.(calls := s.calls[c := s.calls[c].(status := Broken)])
  }

  /** Any interleaving of calls and answers. */
  ghost predicate Possible(trace: seq<Event>)
    decreases |trace|, 0
  {
    trace == [] ||
    (var n := |trace| - 1; Possible(trace[..n]) && Enabled(After(trace[..n]), trace[n]))
  }

  ghost function After(trace: seq<Event>): State
    requires Possible(trace)
    decreases |trace|, 1
  {
    if trace == [] then INITIAL else Apply(After(trace[..|trace| - 1]), trace[|trace| - 1])
  }

  // ---- the source

  /** The table shared by all calls, and the calls under way. */
  class PortTable {
    var usedPorts: map<nat, int>
    var calls: seq<Call>
    ghost var history: seq<Probe>

    ghost function View(): State
      reads this
    {
      State(usedPorts, calls, history)
    }

    constructor ()
      ensures View() == INITIAL
    {
      usedPorts, calls, history := map[], [], [];
    }

    /** A caller enters `getRandomPort` and waits for a first port. */
    method Open(options: Options) returns (c: nat)
      modifies this
      ensures c == |old(calls)| && View() == Apply(old(View()), Event.Open(options))
    {
      c := |calls|;
      var maxRetries := if options.maxRetries == 0 then 10 else options.maxRetries;
      var timeout := if options.timeout == 0 then 10 * 60 * 1000 else options.timeout;
      var retries := 0;
      if retries < maxRetries {
        calls := calls + [Call(maxRetries, timeout, retries + 1, Waiting)];
      } else {
        calls := calls + [Call(maxRetries, timeout, retries, Exhausted)];
      }
    }

    /** The loop from one answer of the operating system to the next wait, to the grant or to the error. */
    method Resume(c: nat, port: nat, now: int)
      requires c < |calls| && calls[c].status == Waiting
      modifies this
      ensures View() == Apply(old(View()), Answer(c, port, now))
    {
      var call := calls[c];
      if port !in usedPorts || usedPorts[port] < now {
        usedPorts := usedPorts[port := now + call.timeout];
        calls := calls[c := call.(status := Granted(port))];
        history := history + [Probe(c, port, now, call.timeout, true)];
        return;
      }
      history := history + [Probe(c, port, now, call.timeout, false)];
      if call.retries < call.maxRetries {
        calls := calls[c := call.(retries := call.retries + 1)];
      } else {
        calls := calls[c := call.(status := Exhausted)];
      }
    }

    /**
     A whole call that nothing interrupts, over the answers it gets: the first free port is leased, and
     without one the table stays as it was.
     */
    method GetRandomPort(options: Options, answers: seq<(nat, int)>) returns (r: Result<nat, ()>)
      requires MaxRetries(options) <= |answers|
      modifies this
      ensures r.Ok? <==> exists i :: 0 <= i < MaxRetries(options) && Free(old(usedPorts), answers[i].0, answers[i].1)
      ensures |calls| == |old(calls)| + 1 && calls[..|old(calls)|] == old(calls)
      ensures r.Err? ==> usedPorts == old(usedPorts)
      ensures r.Ok? ==> exists i :: 0 <= i < MaxRetries(options) && r.value == answers[i].0
                          && usedPorts == old(usedPorts)[r.value := answers[i].1 + Timeout(options)]
                          && Free(old(usedPorts), answers[i].0, answers[i].1)
                          && forall j :: 0 <= j < i ==> !Free(old(usedPorts), answers[j].0, answers[j].1)
    {
      var c := Open(options);
      var i := 0;
      while calls[c].status == Waiting
        invariant 0 <= i && (0 < MaxRetries(options) ==> i <= MaxRetries(options))
        invariant usedPorts == old(usedPorts) && c == |old(calls)| && |calls| == c + 1 && calls[..c] == old(calls)
        invariant forall j :: 0 <= j < i ==> j < |answers| && !Free(usedPorts, answers[j].0, answers[j].1)
        invariant calls[c] == if i < MaxRetries(options)
                              then Call(MaxRetries(options), Timeout(options), i + 1, Waiting)
                              else Call(MaxRetries(options), Timeout(options), i, Exhausted)
        decreases MaxRetries(options) - i
      {
        var (port, now) := answers[i];
        var free := port !in usedPorts || usedPorts[port] < now;
        Resume(c, port, now);
        if free {
          assert Free(old(usedPorts), answers[i].0, answers[i].1);
          return Ok(port);
        }
        i := i + 1;
      }
      return Err(());
    }
  }

  // ---- leases

  function LeaseEnd(p: Probe): int { p.now + p.timeout }

  /** Probe `i` leased the port that probe `k` asked for, beyond the moment it asked. */
  predicate Blocks(history: seq<Probe>, i: nat, k: nat)
    requires i < |history| && k < |history|
  {
    history[i].granted && history[i].port == history[k].port && LeaseEnd(history[i]) >= history[k].now
  }

  /** The table holds, for each port ever granted, the latest end of its leases. */
  ghost predicate TableAgrees(used: map<nat, int>, history: seq<Probe>) {
    && (forall i :: 0 <= i < |history| && history[i].granted ==>
          history[i].port in used && LeaseEnd(history[i]) <= used[history[i].port])
    && forall port :: port in used ==>
         exists i :: 0 <= i < |history| && history[i].granted && history[i].port == port
                     && LeaseEnd(history[i]) == used[port]
  }

  /** A probe was denied exactly when an earlier lease of its port was still running. */
  ghost predicate Exact(history: seq<Probe>) {
    forall k :: 0 <= k < |history| ==>
      (history[k].granted <==> forall i :: 0 <= i < k ==> !Blocks(history, i, k))
  }

  // ---- calls

  function ProbeCount(history: seq<Probe>, c: nat): nat {
    if history == [] then 0
    else ProbeCount(history[..|history| - 1], c) + if history[|history| - 1].call == c then 1 else 0
  }

  ghost predicate AllDenied(history: seq<Probe>, c: nat) {
    forall k :: 0 <= k < |history| && history[k].call == c ==> !history[k].granted
  }

  /** How far a call is, told from its probes. */
  ghost predicate CallAgrees(call: Call, c: nat, history: seq<Probe>) {
    match call.status
    case Waiting =>
      ProbeCount(history, c) == call.retries - 1 && call.retries <= call.maxRetries && AllDenied(history, c)
    case Exhausted =>
      ProbeCount(history, c) == (if call.maxRetries < 0 then 0 else call.maxRetries) && AllDenied(history, c)
    case Broken =>
      ProbeCount(history, c) < call.maxRetries && AllDenied(history, c)
    case Granted(port) =>
      && 1 <= ProbeCount(history, c) <= call.maxRetries
      && exists k :: 0 <= k < |history| && history[k].port == port && GrantsLast(history, c, k)
  }

  /** Probe `k` is the one the call was granted, and it is its last. */
  ghost predicate GrantsLast(history: seq<Probe>, c: nat, k: nat)
    requires k < |history|
  {
    && history[k].call == c && history[k].granted
    && forall j :: 0 <= j < |history| && history[j].call == c && j != k ==> j < k && !history[j].granted
  }

  ghost predicate Inv(s: State) {
    && TableAgrees(s.used, s.history) && Exact(s.history)
    && (forall k :: 0 <= k < |s.history| ==> s.history[k].call < |s.calls|)
    && forall c :: 0 <= c < |s.calls| ==> CallAgrees(s.calls[c], c, s.history)
  }

  lemma ProbeKeepsLeases(used: map<nat, int>, history: seq<Probe>, p: Probe)
    requires TableAgrees(used, history) && Exact(history) && p.granted == Free(used, p.port, p.now)
    ensures Exact(history + [p])
    ensures TableAgrees(if p.granted then used[p.port := LeaseEnd(p)] else used, history + [p])
  {
    var h, n := history + [p], |history|;
    forall k | 0 <= k < |h| ensures h[k].granted <==> forall i :: 0 <= i < k ==> !Blocks(h, i, k) {
      if k < n {
        assert forall i :: 0 <= i < k ==> Blocks(h, i, k) == Blocks(history, i, k);
      } else if p.granted {
        forall i | 0 <= i < n ensures !Blocks(h, i, n) {
          assert h[i] == history[i];
        }
      } else {
        var i :| 0 <= i < n && history[i].granted && history[i].port == p.port && LeaseEnd(history[i]) == used[p.port];
        assert Blocks(h, i, n);
      }
    }
    var after := if p.granted then used[p.port := LeaseEnd(p)] else used;
    forall port | port in after
      ensures exists i :: 0 <= i < |h| && h[i].granted && h[i].port == port && LeaseEnd(h[i]) == after[port]
    {
      if p.granted && port == p.port {
        assert h[n] == p;
      } else {
        var i :| 0 <= i < n && history[i].granted && history[i].port == port && LeaseEnd(history[i]) == used[port];
        assert h[i] == history[i];
      }
    }
  }

  lemma ProbeKeepsOtherCall(call: Call, c: nat, history: seq<Probe>, p: Probe)
    requires CallAgrees(call, c, history) && p.call != c
    ensures CallAgrees(call, c, history + [p])
  {
    assert (history + [p])[..|history|] == history;
    if call.status.Granted? {
      var k :| 0 <= k < |history| && history[k].port == call.status.port && GrantsLast(history, c, k);
      assert GrantsLast(history + [p], c, k);
    }
  }

  lemma ProbeMovesCall(call: Call, c: nat, history: seq<Probe>, p: Probe)
    requires CallAgrees(call, c, history) && call.status == Waiting && p.call == c
    ensures CallAgrees(if p.granted then call.(status := Granted(p.port)) else Denied(call), c, history + [p])
  {
    assert (history + [p])[..|history|] == history;
    assert (history + [p])[|history|] == p;
    if p.granted {
      assert GrantsLast(history + [p], c, |history|);
    }
  }

  lemma {:induction false} FreshCallHasNoProbes(history: seq<Probe>, c: nat)
    requires forall k :: 0 <= k < |history| ==> history[k].call < c
    ensures ProbeCount(history, c) == 0 && AllDenied(history, c)
  {
    if history != [] {
      FreshCallHasNoProbes(history[..|history| - 1], c);
    }
  }

  lemma ApplyKeeps(s: State, e: Event)
    requires Inv(s) && Enabled(s, e)
    ensures Inv(Apply(s, e))
  {
    match e
    case Open(o) =>
      FreshCallHasNoProbes(s.history, |s.calls|);
    case ServerError(c) =>
    case Answer(c, port, now) =>
      var p := Probe(c, port, now, s.calls[c].timeout, Free(s.used, port, now));
      var t := Apply(s, e);
      assert TableAgrees(t.used, t.history) && Exact(t.history) by { ProbeKeepsLeases(s.used, s.history, p); }
      forall d | 0 <= d < |t.calls| ensures CallAgrees(t.calls[d], d, t.history) {
        if d == c {
          ProbeMovesCall(s.calls[c], c, s.history, p);
        } else {
          ProbeKeepsOtherCall(s.calls[d], d, s.history, p);
        }
      }
  }

  lemma {:induction false} RunsKeepInv(trace: seq<Event>)
    requires Possible(trace)
    ensures Inv(After(trace))
  {
    if trace != [] {
      var n := |trace| - 1;
      RunsKeepInv(trace[..n]);
      ApplyKeeps(After(trace[..n]), trace[n]);
    }
  }

  // ---- results over all runs

  /**
   Leases of a port never overlap: when it is granted again, however much later in the run, the
   earlier lease has run out.
   */
  lemma LeasesDoNotOverlap(trace: seq<Event>, i: nat, j: nat)
    requires Possible(trace)
    requires i < j < |After(trace).history|
    requires After(trace).history[i].granted && After(trace).history[j].granted
    requires After(trace).history[i].port == After(trace).history[j].port
    ensures After(trace).history[j].now > LeaseEnd(After(trace).history[i])
  {
    RunsKeepInv(trace);
    assert !Blocks(After(trace).history, i, j);
  }

  /** A port is refused exactly when an earlier lease of it is still running at that moment. */
  lemma RefusedIffLeased(trace: seq<Event>, k: nat)
    requires Possible(trace) && k < |After(trace).history|
    ensures !After(trace).history[k].granted <==> exists i :: 0 <= i < k && Blocks(After(trace).history, i, k)
  {
    RunsKeepInv(trace);
  }

  /**
   A call looks at most at `maxRetries` ports. It gives up only after exactly that many, all leased;
   it ends with the first port that is not: that probe is its last, and the ones before were refused.
   */
  lemma CallsAreBounded(trace: seq<Event>, c: nat)
    requires Possible(trace) && c < |After(trace).calls|
    ensures var s := After(trace);
            var call := s.calls[c];
            && (call.maxRetries >= 0 ==> ProbeCount(s.history, c) <= call.maxRetries)
            && (call.status == Exhausted && call.maxRetries >= 0 ==> ProbeCount(s.history, c) == call.maxRetries)
            && (!call.status.Granted? ==>
                  forall k :: 0 <= k < |s.history| && s.history[k].call == c ==>
                    exists i :: 0 <= i < k && Blocks(s.history, i, k))
            && (call.status.Granted? <==>
                  exists k :: 0 <= k < |s.history| && s.history[k].call == c && s.history[k].granted)
            && (call.status.Granted? ==>
                  exists k :: 0 <= k < |s.history| && s.history[k].port == call.status.port
                              && GrantsLast(s.history, c, k))
  {
    RunsKeepInv(trace);
    var s := After(trace);
    assert CallAgrees(s.calls[c], c, s.history);
  }

  // ---- what callers ask for

  /** The options of the calls, in the order they came. */
  function Asked(trace: seq<Event>): seq<Options> {
    if trace == [] then []
    else
      var n := |trace| - 1;
      if trace[n].Open? then Asked(trace[..n]) + [trace[n].options] else Asked(trace[..n])
  }

  /**
   A call goes by its own options: at most ten tries and ten minutes of lease where they are left out or zero.
   Every port it looks at is looked at for that long.
   */
  lemma {:induction false} CallsGoByOptions(trace: seq<Event>)
    requires Possible(trace)
    ensures var s, asked := After(trace), Asked(trace);
            && |s.calls| == |asked|
            && (forall c :: 0 <= c < |asked| ==>
                  && s.calls[c].maxRetries == (if asked[c].maxRetries == 0 then 10 else asked[c].maxRetries)
                  && s.calls[c].timeout == (if asked[c].timeout == 0 then 600000 else asked[c].timeout))
            && forall k :: 0 <= k < |s.history| ==>
                 s.history[k].call < |s.calls| && s.history[k].timeout == s.calls[s.history[k].call].timeout
  {
    if trace != [] {
      CallsGoByOptions(trace[..|trace| - 1]);
    }
  }

  /** In terms of the options: a port granted at a moment is granted again only after the time asked for. */
  lemma LeaseLastsAsAsked(trace: seq<Event>, i: nat, j: nat)
    requires Possible(trace)
    requires i < j < |After(trace).history|
    requires After(trace).history[i].granted && After(trace).history[j].granted
    requires After(trace).history[i].port == After(trace).history[j].port
    ensures var h, asked := After(trace).history, Asked(trace);
            && h[i].call < |asked|
            && h[j].now > h[i].now + if asked[h[i].call].timeout == 0 then 600000 else asked[h[i].call].timeout
  {
    CallsGoByOptions(trace);
    LeasesDoNotOverlap(trace, i, j);
  }
}
