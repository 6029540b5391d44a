/**
 The batch scheduler `series` of utils/src/promiseSeries.ts: it calls promise generators from a list,
 at most `concurrency` at a time, and starts the next batch when `Promise.all` of the last one resolved.
 A run is a sequence of events: promises settle in any order, and a completed batch hands over.
 */
module Series {

  /** What taking an entry off the list leads to: a running promise, an exception, or a refusal. */
  datatype Task = Starts | Throws | NotFunction

  datatype Outcome<V> = Pending | Resolved(results: seq<V>) | Rejected

  /** What happened, in order. */
  datatype Entry<V> = Started(index: nat) | Settled(index: nat, value: V) | Failed(index: nat)

  type Log<V> = seq<Entry<V>>

  datatype Event<V> = Fulfil(index: nat, value: V) | Fail(index: nat) | BatchDone

  datatype State<V> = State(
    shifted: nat,         // entries taken off the copied list
    lo: nat,              // first entry of the current batch
    results: seq<V>,
    outcome: Outcome<V>,
    log: Log<V>)

  // ---- reading a log

  /** Promises started and neither fulfilled nor rejected. */
  function InFlight<V>(log: Log<V>): set<nat> {
    if log == [] then {}
    else
      var n := |log| - 1;
      if log[n].Started? then InFlight(log[..n]) + {log[n].index} else InFlight(log[..n]) - {log[n].index}
  }

  /** What the fulfilled promises gave. */
  function Values<V>(log: Log<V>): map<nat, V> {
    if log == [] then map[]
    else
      var n := |log| - 1;
      if log[n].Settled? then Values(log[..n])[log[n].index := log[n].value] else Values(log[..n])
  }

  function StartCount<V>(log: Log<V>): nat {
    if log == [] then 0
    else
      var n := |log| - 1;
      if log[n].Started? then StartCount(log[..n]) + 1 else StartCount(log[..n])
  }

  predicate Failure<V>(log: Log<V>) {
    log != [] && (log[|log| - 1].Failed? || Failure(log[..|log| - 1]))
  }

  // ---- one round of `next`

  /** Taking one entry off the list and calling it. */
  function Start<V>(s: State<V>): State<V> {
    s.(shifted := s.shifted + 1, log := s.log + [Started(s.shifted)])
  }

  /** Taking entries until the batch is full, the list is empty, or an entry does not start. */
  function Fill<V>(tasks: seq<Task>, concurrency: int, s: State<V>): (t: State<V>)
    requires s.shifted <= |tasks|
    ensures t.shifted <= |tasks|
    decreases |tasks| - s.shifted
  {
    if s.shifted - s.lo < concurrency && s.shifted < |tasks| then
      if tasks[s.shifted].Starts? then Fill(tasks, concurrency, Start(s))
      else s.(shifted := s.shifted + 1, outcome := Rejected)
    else s
  }

  /** `Promise.all` of the current batch has resolved. */
  ghost predicate Complete<V>(s: State<V>) {
    s.lo <= s.shifted && forall i :: s.lo <= i < s.shifted ==> i in Values(s.log)
  }

  /** The values of the batch, in batch order: what `Promise.all` resolves with. */
  ghost function Collect<V>(values: map<nat, V>, lo: nat, hi: nat): (c: seq<V>)
    requires lo <= hi && forall i :: lo <= i < hi ==> i in values
    ensures |c| == hi - lo && forall i :: 0 <= i < |c| ==> c[i] == values[lo + i]
    decreases hi - lo
  {
    if lo == hi then [] else [values[lo]] + Collect(values, lo + 1, hi)
  }

  /** The values of the completed batch join the results. */
  ghost function HandOver<V>(s: State<V>): State<V>
    requires Complete(s)
  {
    s.(results := s.results + Collect(Values(s.log), s.lo, s.shifted), lo := s.shifted)
  }

  ghost function Next<V>(tasks: seq<Task>, concurrency: int, s: State<V>): (t: State<V>)
    requires s.shifted <= |tasks| && Complete(s)
    ensures t.shifted <= |tasks|
  {
    var t := HandOver(s);
    if t.shifted < |tasks| then Fill(tasks, concurrency, t) else t.(outcome := Resolved(t.results))
  }

  // ---- runs

  function Initial<V>(): State<V> { State(0, 0, [], Pending, []) }

  ghost function Begin<V>(tasks: seq<Task>, concurrency: int): (t: State<V>)
    ensures t.shifted <= |tasks|
  {
    Next(tasks, concurrency, Initial())
  }

  ghost predicate Enabled<V>(s: State<V>, e: Event<V>) {
    match e
    case Fulfil(i, _) => i in InFlight(s.log)
    case Fail(i) => i in InFlight(s.log)
    case BatchDone => s.outcome == Pending && Complete(s)
  }

  ghost function Apply<V>(tasks: seq<Task>, concurrency: int, s: State<V>, e: Event<V>): (t: State<V>)
    requires s.shifted <= |tasks| && Enabled(s, e)
    ensures t.shifted <= |tasks|
  {
    match e
    case Fulfil(i, v) => s.(log := s.log + [Settled(i, v)])
    case Fail(i) =>
      s.(log := s.log + [Failed(i)], outcome := if s.outcome == Pending then Rejected else s.outcome)
    case BatchDone => Next(tasks, concurrency, s)
  }

  /** The promises and the scheduler can go through `trace`, in this order. */
  ghost predicate Possible<V>(tasks: seq<Task>, concurrency: int, trace: seq<Event<V>>)
    decreases |trace|, 0
  {
    trace == [] ||
    (var n := |trace| - 1;
     Possible(tasks, concurrency, trace[..n]) && Enabled(After(tasks, concurrency, trace[..n]), trace[n]))
  }

  /** The scheduler after the events of `trace`. */
  ghost function After<V>(tasks: seq<Task>, concurrency: int, trace: seq<Event<V>>): (t: State<V>)
    requires Possible(tasks, concurrency, trace)
    ensures t.shifted <= |tasks|
    decreases |trace|, 1
  {
    if trace == [] then Begin(tasks, concurrency)
    else
      var n := |trace| - 1;
      Apply(tasks, concurrency, After(tasks, concurrency, trace[..n]), trace[n])
  }

  // ---- what a log must look like

  /** The first entry of the batch of entry `i`: the batches are `concurrency` entries long. */
  function BatchStart(i: nat, concurrency: int): (lo: nat)
    requires concurrency >= 1
    ensures lo <= i < lo + concurrency
  {
    if i < concurrency then 0 else concurrency + BatchStart(i - concurrency, concurrency)
  }

  /**
   What may happen next: the generator next in list order starts when nothing failed, every earlier
   batch is fulfilled and there is room; only a promise in flight settles, and it settles once.
   */
  ghost predicate EntryFine<V>(concurrency: int, before: Log<V>, e: Entry<V>)
    requires concurrency >= 1
  {
    match e
    case Started(i) =>
      && i == StartCount(before)
      && !Failure(before)
      && (forall j: nat :: j < BatchStart(i, concurrency) ==> j in Values(before))
      && |InFlight(before) + {i}| <= concurrency
    case Settled(i, _) => i in InFlight(before) && i !in Values(before)
    case Failed(i) => i in InFlight(before) && i !in Values(before)
  }

  ghost predicate Orderly<V>(concurrency: int, log: Log<V>)
    requires concurrency >= 1
  {
    log == [] ||
    (Orderly(concurrency, log[..|log| - 1]) && EntryFine(concurrency, log[..|log| - 1], log[|log| - 1]))
  }

  // ---- the invariant

  ghost predicate Accounted<V>(log: Log<V>, lo: nat) {
    && (forall i :: 0 <= i < lo ==> i in Values(log))
    && (forall i :: i in InFlight(log) ==> lo <= i < StartCount(log) && i !in Values(log))
    && (forall i :: i in Values(log) ==> i < StartCount(log))
  }

  /** The results are the values of the finished batches. */
  ghost predicate Gathered<V>(results: seq<V>, log: Log<V>, lo: nat) {
    |results| == lo && forall i :: 0 <= i < lo ==> i in Values(log) && results[i] == Values(log)[i]
  }

  ghost predicate Inv<V>(tasks: seq<Task>, concurrency: int, s: State<V>)
    requires concurrency >= 1
  {
    && Orderly(concurrency, s.log) && Accounted(s.log, s.lo) && Gathered(s.results, s.log, s.lo)
    && s.lo <= StartCount(s.log) <= s.shifted <= |tasks|
    && StartCount(s.log) - s.lo <= concurrency
    && (forall i :: 0 <= i < StartCount(s.log) ==> tasks[i].Starts?)
    && (Failure(s.log) ==> s.outcome == Rejected)
    && (s.outcome == Rejected ==> Failure(s.log) || (s.shifted > 0 && !tasks[s.shifted - 1].Starts?))
    && (s.outcome.Resolved? ==> s.lo == s.shifted == |tasks| && s.outcome.results == s.results)
    && (s.outcome == Pending ==> Waiting(tasks, concurrency, s))
  }

  /** A batch is under way, and each of its promises is in flight or fulfilled. */
  ghost predicate Waiting<V>(tasks: seq<Task>, concurrency: int, s: State<V>)
    requires concurrency >= 1
  {
    && BatchStart(s.lo, concurrency) == s.lo < s.shifted
    && StartCount(s.log) == s.shifted == Min(s.lo + concurrency, |tasks|)
    && forall i :: s.lo <= i < s.shifted ==> i in InFlight(s.log) || i in Values(s.log)
  }

  function Min(a: int, b: int): int { if a < b then a else b }

  /** While a batch is being filled. */
  ghost predicate Filling<V>(tasks: seq<Task>, concurrency: int, s: State<V>)
    requires concurrency >= 1
  {
    && Orderly(concurrency, s.log) && Accounted(s.log, s.lo) && Gathered(s.results, s.log, s.lo)
    && BatchStart(s.lo, concurrency) == s.lo <= s.shifted <= s.lo + concurrency
    && StartCount(s.log) == s.shifted <= |tasks| && s.lo < |tasks|
    && (forall i :: 0 <= i < s.shifted ==> tasks[i].Starts?)
    && !Failure(s.log) && s.outcome == Pending
    && InFlight(s.log) == Range(s.lo, s.shifted)
  }

  ghost function Range(lo: nat, hi: nat): (r: set<nat>)
    requires lo <= hi
    ensures |r| == hi - lo
    ensures forall i :: i in r <==> lo <= i < hi
    decreases hi - lo
  {
    if lo == hi then {} else Range(lo, hi - 1) + {hi - 1}
  }

  // ---- every step keeps it

  lemma LogGrows<V>(log: Log<V>, e: Entry<V>)
    ensures InFlight(log + [e]) == if e.Started? then InFlight(log) + {e.index} else InFlight(log) - {e.index}
    ensures Values(log + [e]) == if e.Settled? then Values(log)[e.index := e.value] else Values(log)
    ensures StartCount(log + [e]) == if e.Started? then StartCount(log) + 1 else StartCount(log)
    ensures Failure(log + [e]) <==> e.Failed? || Failure(log)
    ensures forall c :: c >= 1 ==> (Orderly(c, log + [e]) <==> Orderly(c, log) && EntryFine(c, log, e))
  {
    assert (log + [e])[..|log|] == log;
  }

  lemma {:induction false} WithinBatch(lo: nat, i: nat, c: int)
    requires c >= 1 && BatchStart(lo, c) == lo && lo <= i < lo + c
    ensures BatchStart(i, c) == lo
    decreases lo
  {
    if lo >= c {
      WithinBatch(lo - c, i - c, c);
    }
  }

  lemma StartKeepsFilling<V>(tasks: seq<Task>, concurrency: int, s: State<V>)
    requires concurrency >= 1 && Filling(tasks, concurrency, s)
    requires s.shifted - s.lo < concurrency && s.shifted < |tasks| && tasks[s.shifted].Starts?
    ensures Filling(tasks, concurrency, Start(s))
  {
    var e: Entry<V> := Started(s.shifted);
    StartIsFine(tasks, concurrency, s);
    LogGrows(s.log, e);
    assert Accounted(s.log + [e], s.lo) by { StartKeepsAccount(s.log, s.lo); }
    assert Gathered(s.results, s.log + [e], s.lo);
    assert InFlight(s.log + [e]) == Range(s.lo, s.shifted + 1);
  }

  lemma StartKeepsAccount<V>(log: Log<V>, lo: nat)
    requires Accounted(log, lo) && lo <= StartCount(log)
    ensures Accounted(log + [Started(StartCount(log))], lo)
  {
    LogGrows(log, Started(StartCount(log)));
  }

  lemma StartIsFine<V>(tasks: seq<Task>, concurrency: int, s: State<V>)
    requires concurrency >= 1 && Filling(tasks, concurrency, s) && s.shifted - s.lo < concurrency
    ensures EntryFine(concurrency, s.log, Started(s.shifted))
  {
    WithinBatch(s.lo, s.shifted, concurrency);
    assert InFlight(s.log) + {s.shifted} == Range(s.lo, s.shifted + 1);
  }

  lemma {:induction false} FillKeeps<V>(tasks: seq<Task>, concurrency: int, s: State<V>)
    requires concurrency >= 1 && Filling(tasks, concurrency, s)
    ensures Inv(tasks, concurrency, Fill(tasks, concurrency, s))
    decreases |tasks| - s.shifted
  {
    if s.shifted - s.lo < concurrency && s.shifted < |tasks| && tasks[s.shifted].Starts? {
      StartKeepsFilling(tasks, concurrency, s);
      FillKeeps(tasks, concurrency, Start(s));
    } else {
      FilledIsInv(tasks, concurrency, s);
    }
  }

  lemma FilledIsInv<V>(tasks: seq<Task>, concurrency: int, s: State<V>)
    requires concurrency >= 1 && Filling(tasks, concurrency, s)
    ensures s.shifted - s.lo >= concurrency || s.shifted >= |tasks| ==> Inv(tasks, concurrency, s)
    ensures s.shifted < |tasks| && !tasks[s.shifted].Starts? ==>
              Inv(tasks, concurrency, s.(shifted := s.shifted + 1, outcome := Rejected))
  {
  }

  lemma NextKeeps<V>(tasks: seq<Task>, concurrency: int, s: State<V>)
    requires concurrency >= 1 && Inv(tasks, concurrency, s) && s.outcome == Pending && Complete(s)
    ensures Inv(tasks, concurrency, Next(tasks, concurrency, s))
  {
    var t := HandOver(s);
    if t.shifted < |tasks| {
      assert t.lo == s.lo + concurrency;
      ReadyToFill(tasks, concurrency, s.lo, t);
      FillKeeps(tasks, concurrency, t);
    } else {
    }
  }

  /** An empty batch that follows a full one is ready to be filled. */
  lemma ReadyToFill<V>(tasks: seq<Task>, concurrency: int, lo: nat, t: State<V>)
    requires concurrency >= 1 && Orderly(concurrency, t.log)
    requires Accounted(t.log, t.lo) && Gathered(t.results, t.log, t.lo)
    requires BatchStart(lo, concurrency) == lo && t.lo == lo + concurrency
    requires t.lo == t.shifted == StartCount(t.log) < |tasks|
    requires !Failure(t.log) && t.outcome == Pending && InFlight(t.log) == {}
    requires forall i :: 0 <= i < t.lo ==> tasks[i].Starts?
    ensures Filling(tasks, concurrency, t)
  {
    assert BatchStart(t.lo, concurrency) == t.lo;
    assert Range(t.lo, t.shifted) == {};
  }

  lemma BeginKeeps<V>(tasks: seq<Task>, concurrency: int)
    requires concurrency >= 1
    ensures Inv(tasks, concurrency, Begin<V>(tasks, concurrency))
  {
    var t: State<V> := HandOver(Initial());
    if tasks != [] {
      assert Range(0, 0) == {};
      FillKeeps(tasks, concurrency, t);
    }
  }

  lemma ApplyKeeps<V>(tasks: seq<Task>, concurrency: int, s: State<V>, e: Event<V>)
    requires concurrency >= 1 && Inv(tasks, concurrency, s) && Enabled(s, e)
    ensures Inv(tasks, concurrency, Apply(tasks, concurrency, s, e))
  {
    match e
    case BatchDone =>
      NextKeeps(tasks, concurrency, s);
    case Fulfil(i, v) =>
    case Fail(i) =>
  }

  lemma StepKeeps<V>(tasks: seq<Task>, concurrency: int, s: State<V>, e: Event<V>, t: State<V>)
    requires s.shifted <= |tasks| && Enabled(s, e) && t == Apply(tasks, concurrency, s, e)
    ensures concurrency >= 1 && Inv(tasks, concurrency, s) ==> Inv(tasks, concurrency, t)
  {
    if concurrency >= 1 && Inv(tasks, concurrency, s) {
      ApplyKeeps(tasks, concurrency, s, e);
    }
  }

  lemma {:induction false} RunsKeepInv<V>(tasks: seq<Task>, concurrency: int, trace: seq<Event<V>>)
    requires concurrency >= 1 && Possible(tasks, concurrency, trace)
    ensures Inv(tasks, concurrency, After(tasks, concurrency, trace))
    decreases |trace|
  {
    if trace == [] {
      BeginKeeps<V>(tasks, concurrency);
    } else {
      var n := |trace| - 1;
      RunsKeepInv(tasks, concurrency, trace[..n]);
      ApplyKeeps(tasks, concurrency, After(tasks, concurrency, trace[..n]), trace[n]);
    }
  }

  // ---- what the log of a run says

  /** Each entry was allowed when it happened. */
  lemma {:induction false} OrderlyAt<V>(concurrency: int, log: Log<V>, p: nat)
    requires concurrency >= 1 && Orderly(concurrency, log) && p < |log|
    ensures Orderly(concurrency, log[..p]) && EntryFine(concurrency, log[..p], log[p])
    decreases |log|
  {
    var n := |log| - 1;
    if p < n {
      OrderlyAt(concurrency, log[..n], p);
      assert log[..n][..p] == log[..p];
    }
  }

  /** The entries started, in order. */
  function StartOrder<V>(log: Log<V>): seq<nat> {
    if log == [] then []
    else
      var n := |log| - 1;
      if log[n].Started? then StartOrder(log[..n]) + [log[n].index] else StartOrder(log[..n])
  }

  /** Generators are called in list order, each at most once. */
  lemma {:induction false} StartsInListOrder<V>(concurrency: int, log: Log<V>)
    requires concurrency >= 1 && Orderly(concurrency, log)
    ensures |StartOrder(log)| == StartCount(log)
    ensures forall i :: 0 <= i < |StartOrder(log)| ==> StartOrder(log)[i] == i
  {
    if log != [] {
      StartsInListOrder(concurrency, log[..|log| - 1]);
    }
  }

  /** At no moment are more than `concurrency` promises in flight. */
  lemma {:induction false} NeverMoreInFlight<V>(concurrency: int, log: Log<V>)
    requires concurrency >= 1 && Orderly(concurrency, log)
    ensures |InFlight(log)| <= concurrency
  {
    if log != [] {
      var n := |log| - 1;
      NeverMoreInFlight(concurrency, log[..n]);
      if !log[n].Started? {
        var fewer := InFlight(log[..n]) - {log[n].index};
        assert log[n].index in InFlight(log[..n]);
        assert |InFlight(log[..n])| == |fewer| + 1;
      }
    }
  }

  lemma {:induction false} FailureAt<V>(log: Log<V>, q: nat)
    requires q < |log| && log[q].Failed?
    ensures Failure(log)
  {
    if q < |log| - 1 {
      FailureAt(log[..|log| - 1], q);
    }
  }

  /** Nothing starts after a rejection. */
  lemma NoStartAfterFailure<V>(concurrency: int, log: Log<V>, q: nat, p: nat)
    requires concurrency >= 1 && Orderly(concurrency, log) && q < p < |log| && log[q].Failed?
    ensures !log[p].Started?
  {
    OrderlyAt(concurrency, log, p);
    FailureAt(log[..p], q);
  }

  /** A batch starts only after every entry of the earlier batches was fulfilled. */
  lemma BatchesAreBarriers<V>(concurrency: int, log: Log<V>, p: nat, j: nat)
    requires concurrency >= 1 && Orderly(concurrency, log) && p < |log| && log[p].Started?
    requires j < BatchStart(log[p].index, concurrency)
    ensures exists q :: 0 <= q < p && log[q].Settled? && log[q].index == j
  {
    OrderlyAt(concurrency, log, p);
    var q := ValueIsLogged(log[..p], j);
  }

  /** A value was logged by the promise it belongs to. */
  lemma {:induction false} ValueIsLogged<V>(log: Log<V>, i: nat) returns (q: nat)
    requires i in Values(log)
    ensures q < |log| && log[q] == Settled(i, Values(log)[i])
  {
    q := |log| - 1;
    if !(log[q].Settled? && log[q].index == i) {
      q := ValueIsLogged(log[..q], i);
    }
  }

  /** No promise settles twice: what is logged for it is its value. */
  lemma {:induction false} LoggedIsValue<V>(concurrency: int, log: Log<V>, q: nat)
    requires concurrency >= 1 && Orderly(concurrency, log) && q < |log| && log[q].Settled?
    ensures log[q].index in Values(log) && Values(log)[log[q].index] == log[q].value
    decreases |log|
  {
    var n := |log| - 1;
    if q < n {
      LoggedIsValue(concurrency, log[..n], q);
    }
  }

  // ---- whole runs

  /**
   Safety, over every order in which promises settle: at every moment of the run at most `concurrency`
   are in flight, calls follow list order, and every entry of the log was allowed when it happened
   (no call after a rejection, none before the earlier batches are fulfilled, no promise settles twice).
   */
  lemma RunsAreOrderly<V>(tasks: seq<Task>, concurrency: int, trace: seq<Event<V>>, p: nat)
    requires concurrency >= 1 && Possible(tasks, concurrency, trace)
    requires p <= |After(tasks, concurrency, trace).log|
    ensures var log := After(tasks, concurrency, trace).log;
            && Orderly(concurrency, log)
            && |InFlight(log[..p])| <= concurrency
            && forall i :: 0 <= i < |StartOrder(log)| ==> StartOrder(log)[i] == i < |tasks|
  {
    RunsKeepInv(tasks, concurrency, trace);
    var log := After(tasks, concurrency, trace).log;
    StartsInListOrder(concurrency, log);
    if p < |log| {
      OrderlyAt(concurrency, log, p);
    } else {
      assert log[..p] == log;
    }
    NeverMoreInFlight(concurrency, log[..p]);
  }

  /** On success result `i` is what generator `i` gave, for every entry of the list and nothing else. */
  lemma ResolvedMeansAllValues<V>(tasks: seq<Task>, concurrency: int, trace: seq<Event<V>>, i: nat)
    requires concurrency >= 1 && Possible(tasks, concurrency, trace)
    requires After(tasks, concurrency, trace).outcome.Resolved? && i < |tasks|
    ensures var s := After(tasks, concurrency, trace);
            && |s.outcome.results| == |tasks| == |StartOrder(s.log)|
            && (exists q :: 0 <= q < |s.log| && s.log[q] == Settled(i, s.outcome.results[i]))
            && (forall q :: 0 <= q < |s.log| && s.log[q].Settled? && s.log[q].index == i ==>
                  s.log[q].value == s.outcome.results[i])
            && !Failure(s.log)
  {
    RunsKeepInv(tasks, concurrency, trace);
    var s := After(tasks, concurrency, trace);
    StartsInListOrder(concurrency, s.log);
    var q := ValueIsLogged(s.log, i);
    forall q | 0 <= q < |s.log| && s.log[q].Settled? && s.log[q].index == i
      ensures s.log[q].value == s.outcome.results[i]
    {
      LoggedIsValue(concurrency, s.log, q);
    }
  }

  /** A run is rejected exactly when a promise failed or the last entry taken did not start. */
  lemma RejectionHasCause<V>(tasks: seq<Task>, concurrency: int, trace: seq<Event<V>>)
    requires concurrency >= 1 && Possible(tasks, concurrency, trace)
    ensures var s := After(tasks, concurrency, trace);
            s.outcome == Rejected <==> Failure(s.log) || (s.shifted > 0 && !tasks[s.shifted - 1].Starts?)
  {
    RunsKeepInv(tasks, concurrency, trace);
  }

  /** A run that nothing can continue has settled. */
  lemma SettledWhenQuiet<V>(tasks: seq<Task>, concurrency: int, trace: seq<Event<V>>)
    requires concurrency >= 1 && Possible(tasks, concurrency, trace)
    requires InFlight(After(tasks, concurrency, trace).log) == {}
    requires !Enabled(After(tasks, concurrency, trace), BatchDone)
    ensures After(tasks, concurrency, trace).outcome != Pending
  {
    RunsKeepInv(tasks, concurrency, trace);
  }

  // ---- runs end

  ghost function Measure<V>(tasks: seq<Task>, s: State<V>): int {
    |InFlight(s.log)| + 2 * (|tasks| - s.shifted) + if s.outcome == Pending then 1 else 0
  }

  lemma {:induction false} FillMeasure<V>(tasks: seq<Task>, concurrency: int, s: State<V>)
    requires s.shifted <= |tasks|
    ensures Measure(tasks, Fill(tasks, concurrency, s)) <= Measure(tasks, s)
    ensures concurrency >= 1 && s.lo == s.shifted < |tasks| ==>
              Measure(tasks, Fill(tasks, concurrency, s)) < Measure(tasks, s)
    decreases |tasks| - s.shifted
  {
    if s.shifted - s.lo < concurrency && s.shifted < |tasks| && tasks[s.shifted].Starts? {
      LogGrows(s.log, Started(s.shifted));
      FillMeasure(tasks, concurrency, Start(s));
    }
  }

  lemma EventMeasure<V>(tasks: seq<Task>, concurrency: int, s: State<V>, e: Event<V>)
    requires concurrency >= 1 && s.shifted <= |tasks| && Enabled(s, e)
    ensures Measure(tasks, Apply(tasks, concurrency, s, e)) < Measure(tasks, s)
  {
    match e
    case BatchDone =>
      if s.shifted < |tasks| {
        FillMeasure(tasks, concurrency, HandOver(s));
      }
    case Fulfil(i, v) =>
      LogGrows(s.log, Settled(i, v));
    case Fail(i) =>
      LogGrows(s.log, Failed(i));
  }

  /** Every run is finite: at most two events an entry and one more. */
  lemma {:induction false} RunsEnd<V>(tasks: seq<Task>, concurrency: int, trace: seq<Event<V>>)
    requires concurrency >= 1 && Possible(tasks, concurrency, trace)
    ensures |trace| + Measure(tasks, After(tasks, concurrency, trace)) <= 2 * |tasks| + 1
    decreases |trace|
  {
    if trace == [] {
      var t: State<V> := HandOver(Initial());
      assert t == Initial();
      if tasks != [] {
        FillMeasure(tasks, concurrency, t);
      }
    } else {
      var n := |trace| - 1;
      RunsEnd(tasks, concurrency, trace[..n]);
      EventMeasure(tasks, concurrency, After(tasks, concurrency, trace[..n]), trace[n]);
    }
  }

  /** With a concurrency below one and a non-empty list, empty batches follow each other forever. */
  lemma {:induction false} NoConcurrencyNeverSettles<V>(tasks: seq<Task>, concurrency: int, trace: seq<Event<V>>)
    requires concurrency < 1 && tasks != []
    ensures Possible(tasks, concurrency, trace) <==> forall p :: 0 <= p < |trace| ==> trace[p] == BatchDone
    ensures Possible(tasks, concurrency, trace) ==> After(tasks, concurrency, trace) == Initial()
    decreases |trace|
  {
    if trace != [] {
      var n := |trace| - 1;
      NoConcurrencyNeverSettles(tasks, concurrency, trace[..n]);
      if Possible(tasks, concurrency, trace) {
        assert forall p :: 0 <= p < n ==> trace[..n][p] == trace[p];
      }
    }
  }
}
