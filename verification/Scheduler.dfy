/** The source of `series` as an object whose fields it reassigns, proved against module `Series`. */
module Scheduler {
  import opened Series

  class BatchScheduler<V> {
    const tasks: seq<Task>
    const concurrency: int
    /** The copy of the list, entries taken off its front. */
    var work: seq<Task>
    /** `concurrentPromises`, by list position. */
    var batch: seq<nat>
    var results: seq<V>
    var outcome: Outcome<V>
    /** The promises themselves: still in flight, or fulfilled with a value. */
    var inFlight: set<nat>
    var fulfilled: map<nat, V>
    ghost var lo: nat
    ghost var log: Log<V>

    ghost predicate Valid()
      reads this
    {
      && |work| <= |tasks| && work == tasks[|tasks| - |work|..]
      && lo <= |tasks| - |work|
      && inFlight == InFlight(log) && fulfilled == Values(log)
      && (outcome == Pending ==>
            && |batch| == |tasks| - |work| - lo
            && forall k :: 0 <= k < |batch| ==> batch[k] == lo + k)
    }

    ghost function View(): (s: State<V>)
      reads this
      requires Valid()
      ensures s.shifted <= |tasks|
    {
      State(|tasks| - |work|, lo, results, outcome, log)
    }

    /** `series(list, concurrency)`: the caller's array is copied, not changed. */
    constructor (list: array<Task>, concurrency: int)
      ensures Valid() && tasks == list[..] && this.concurrency == concurrency
      ensures View() == Begin(tasks, concurrency)
      ensures concurrency >= 1 ==> Inv(tasks, concurrency, View())
    {
      tasks, this.concurrency := list[..], concurrency;
      work, batch, results, outcome := list[..], [], [], Pending;
      inFlight, fulfilled, lo, log := {}, map[], 0, [];
      new;
      assert View() == Initial();
      Next([]);
      if concurrency >= 1 {
        BeginKeeps<V>(tasks, concurrency);
      }
    }

    /** The body of the inner loop of `next`: one entry is shifted off and called. */
    method TakeOne() returns (ok: bool)
      requires Valid() && outcome == Pending && |work| > 0
      modifies this
      ensures Valid() && ok == tasks[old(View()).shifted].Starts?
      ensures ok ==> View() == Start(old(View()))
      ensures !ok ==> View() == old(View()).(shifted := old(View()).shifted + 1, outcome := Rejected)
    {
      var position := |tasks| - |work|;
      var promise := work[0];
      work := work[1..];
      ok := promise == Starts;
      if !ok {
        outcome := Rejected;
        return;
      }
      LogGrows(log, Started(position));
      batch := batch + [position];
      inFlight := inFlight + {position};
      log := log + [Started(position)];
    }

    /** `next(result)` */
    method Next(result: seq<V>)
      requires Valid() && outcome == Pending && Complete(View())
      requires result == Collect(fulfilled, lo, |tasks| - |work|)
      modifies this
      ensures Valid() && View() == Series.Next(tasks, concurrency, old(View()))
    {
      batch := [];
      results := results + result;
      lo := |tasks| - |work|;
      assert View() == HandOver(old(View()));
      if |work| > 0 {
        while |batch| < concurrency && |work| > 0
          invariant Valid() && outcome == Pending
          invariant Fill(tasks, concurrency, View()) == Fill(tasks, concurrency, HandOver(old(View())))
          decreases |work|
        {
          var ok := TakeOne();
          if !ok {
            return;
          }
        }
      } else {
        outcome := Resolved(results);
      }
    }

    /** A promise fulfils. */
    method Fulfil(i: nat, v: V)
      requires Valid() && i in inFlight
      modifies this
      ensures Valid() && View() == Apply(tasks, concurrency, old(View()), Event.Fulfil(i, v))
      ensures concurrency >= 1 && old(Inv(tasks, concurrency, View())) ==> Inv(tasks, concurrency, View())
    {
      ghost var before := View();
      LogGrows(log, Settled(i, v));
      inFlight := inFlight - {i};
      fulfilled := fulfilled[i := v];
      log := log + [Settled(i, v)];
      StepKeeps(tasks, concurrency, before, Event.Fulfil(i, v), View());
    }

    /** A promise rejects: the first time, so does the whole series. */
    method Fail(i: nat)
      requires Valid() && i in inFlight
      modifies this
      ensures Valid() && View() == Apply(tasks, concurrency, old(View()), Event.Fail(i))
      ensures concurrency >= 1 && old(Inv(tasks, concurrency, View())) ==> Inv(tasks, concurrency, View())
    {
      ghost var before := View();
      LogGrows(log, Failed(i));
      inFlight := inFlight - {i};
      if outcome == Pending {
        outcome := Rejected;
      }
      log := log + [Failed(i)];
      StepKeeps(tasks, concurrency, before, Event.Fail(i), View());
    }

    /** `Promise.all(concurrentPromises).then(next)`, once every promise of the batch is fulfilled. */
    method BatchDone()
      requires Valid() && outcome == Pending && forall k :: 0 <= k < |batch| ==> batch[k] in fulfilled
      modifies this
      ensures Valid() && old(Enabled(View(), Event.BatchDone))
      ensures View() == Apply(tasks, concurrency, old(View()), Event.BatchDone)
      ensures concurrency >= 1 && old(Inv(tasks, concurrency, View())) ==> Inv(tasks, concurrency, View())
    {
      ghost var before := View();
      forall i | lo <= i < |tasks| - |work| ensures i in fulfilled {
        assert batch[i - lo] == i;
      }
      var result := Collected();
      Next(result);
      StepKeeps(tasks, concurrency, before, Event.BatchDone, View());
    }

    /** What `Promise.all(concurrentPromises)` resolves with: the values in batch order. */
    method Collected() returns (result: seq<V>)
      requires Valid() && outcome == Pending && forall i :: lo <= i < |tasks| - |work| ==> i in fulfilled
      ensures result == Collect(fulfilled, lo, |tasks| - |work|)
    {
      result := [];
      for k := 0 to |batch|
        invariant |result| == k && forall j :: 0 <= j < k ==> result[j] == fulfilled[lo + j]
      {
        result := result + [fulfilled[batch[k]]];
      }
    }
  }
}
