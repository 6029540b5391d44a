/**
 The namespace cleaner: `setupCleaner` and `upsertCronJob` of orchestrator/src/providers/k8s/kubeClient.ts
 with `addMinutes` of utils/src/misc.ts. Two daily cron jobs delete the pod monitor and the namespace;
 while the network lives they are rescheduled, every eight minutes, ten and eleven minutes ahead.
 Times are milliseconds since the epoch; schedules are read in UTC.
 */
module Cleaner {
  import opened Wrappers

  const MINUTE := 60 * 1000
  const HOUR := 60 * MINUTE
  const DAY := 24 * HOUR

  /** Hour and minute of the day. */
  datatype Schedule = Schedule(hour: int, minute: int)

  /** `addMinutes(howMany, baseDate)` */
  function AddMinutes(howMany: int, base: int): (s: Schedule)
    ensures 0 <= s.hour < 24 && 0 <= s.minute < 60
  {
    var target := base + howMany * 60 * 1000;
    Schedule(target / HOUR % 24, target / MINUTE % 60)
  }

  /** The job `minute hour * * *` fires at `t`. */
  predicate FiresAt(s: Schedule, t: int) {
    t % DAY == s.hour * HOUR + s.minute * MINUTE
  }

  /** The start of the minute of `t`. */
  function MinuteStart(t: int): int { t - t % MINUTE }

  /** The first firing after `t`. */
  function NextFire(s: Schedule, t: int): int {
    t + 1 + (s.hour * HOUR + s.minute * MINUTE - (t + 1)) % DAY
  }

  // ---- the source

  class KubeClient {
    var podMonitorAvailable: bool
    var podSchedule: Option<Schedule>
    var namespaceSchedule: Option<Schedule>

    constructor ()
      ensures podSchedule == None && namespaceSchedule == None
    {
      podMonitorAvailable, podSchedule, namespaceSchedule := false, None, None;
    }

    /** A refresh at `now`; a namespace that is not active is left alone. */
    method UpsertCronJob(now: int, active: bool, minutes: int := 10)
      modifies `podSchedule, `namespaceSchedule
      ensures !active ==> podSchedule == old(podSchedule) && namespaceSchedule == old(namespaceSchedule)
      ensures active ==> namespaceSchedule == Some(AddMinutes(minutes + 1, now))
      ensures active ==> podSchedule == if podMonitorAvailable then Some(AddMinutes(minutes, now)) else old(podSchedule)
    {
      var ahead := minutes;
      if active {
        if podMonitorAvailable {
          podSchedule := Some(AddMinutes(ahead, now));
        }
        ahead := ahead + 1;
        namespaceSchedule := Some(AddMinutes(ahead, now));
      }
    }

    /**
     Setting up: right after it the pod monitor's job, if there is one, next fires within the tenth
     minute from now and the namespace's one minute later.
     */
    method SetupCleaner(available: bool, now: int, active: bool)
      modifies this
      ensures podMonitorAvailable == available
      ensures !active ==> namespaceSchedule == old(namespaceSchedule)
      ensures !(active && available) ==> podSchedule == old(podSchedule)
      ensures active ==>
                && namespaceSchedule.Some?
                && now + 10 * MINUTE < NextFire(namespaceSchedule.value, now) <= now + 11 * MINUTE
      ensures active && available ==>
                && podSchedule.Some?
                && now + 9 * MINUTE < NextFire(podSchedule.value, now) <= now + 10 * MINUTE
                && NextFire(namespaceSchedule.value, now) == NextFire(podSchedule.value, now) + MINUTE
    {
      podMonitorAvailable := available;
      UpsertCronJob(now, active);
      NextFireAfterRefresh(10, now);
      NextFireAfterRefresh(11, now);
      OneMinuteApart(now);
    }
  }

  // ---- one refresh

  /** The schedule set at `now` fires at the start of the minute `howMany` minutes ahead. */
  lemma TargetFires(howMany: int, now: int)
    ensures FiresAt(AddMinutes(howMany, now), MinuteStart(now + howMany * MINUTE))
  {
    var target := now + howMany * 60 * 1000;
    var m := target / MINUTE;
    MinuteOfDay(m);
    assert MinuteStart(target) == m * MINUTE;
  }

  /** Minute `m` since the epoch, within its day. */
  lemma MinuteOfDay(m: int)
    ensures m * MINUTE % DAY == m / 60 % 24 * HOUR + m % 60 * MINUTE
  {
    WithinDay(m);
    assert m % 1440 == m / 60 % 24 * 60 + m % 60;
  }

  lemma WithinDay(m: int)
    ensures m * MINUTE % DAY == m % 1440 * MINUTE
  {
    var day, rest := m / 1440, m % 1440;
    assert m * MINUTE == day * DAY + rest * MINUTE;
  }

  /** `NextFire` is the first firing after `t`. */
  lemma NextFireIsFirst(s: Schedule, t: int)
    requires 0 <= s.hour < 24 && 0 <= s.minute < 60
    ensures FiresAt(s, NextFire(s, t)) && t < NextFire(s, t) <= t + DAY
    ensures forall u :: t < u < NextFire(s, t) ==> !FiresAt(s, u)
  {
  }

  /** A firing less than a day ahead is the next one. */
  lemma SoonIsNext(s: Schedule, t: int, u: int)
    requires 0 <= s.hour < 24 && 0 <= s.minute < 60
    requires FiresAt(s, u) && t < u <= t + DAY
    ensures NextFire(s, t) == u
  {
  }

  /**
   Main result on one refresh: less than a day ahead, across midnight too, the next firing is the start
   of the minute `howMany` minutes from now, so it comes more than `howMany - 1` and at most `howMany`
   minutes from now.
   */
  lemma NextFireAfterRefresh(howMany: int, now: int)
    requires 1 <= howMany <= 1440
    ensures NextFire(AddMinutes(howMany, now), now) == MinuteStart(now + howMany * MINUTE)
    ensures now + (howMany - 1) * MINUTE < NextFire(AddMinutes(howMany, now), now) <= now + howMany * MINUTE
  {
    TargetFires(howMany, now);
    SoonIsNext(AddMinutes(howMany, now), now, MinuteStart(now + howMany * MINUTE));
  }

  lemma OneMinuteApart(now: int)
    ensures MinuteStart(now + 11 * MINUTE) == MinuteStart(now + 10 * MINUTE) + MINUTE
  {
  }

  /**
   A pause of `gap` after a refresh is safe, whenever the refresh happened, exactly when it is at most
   one minute short of the delay.
   */
  lemma GapIsSafeIff(howMany: int, gap: int)
    requires 1 <= howMany <= 1440
    ensures (forall now: int, t: int :: now < t <= now + gap ==> !FiresAt(AddMinutes(howMany, now), t)) <==>
            gap <= (howMany - 1) * MINUTE
  {
    if gap <= (howMany - 1) * MINUTE {
      forall now: int, t: int | now < t <= now + gap ensures !FiresAt(AddMinutes(howMany, now), t) {
        NextFireAfterRefresh(howMany, now);
        NextFireIsFirst(AddMinutes(howMany, now), now);
      }
    } else {
      var now := MINUTE - 1;
      TargetFires(howMany, now);
      assert MinuteStart(now + howMany * MINUTE) == howMany * MINUTE;
      assert now < howMany * MINUTE <= now + gap;
    }
  }

  // ---- whole runs

  /**
   An active refresh: the clock is read at `now`, the two jobs are replaced at `podAt` and
   `namespaceAt`.
   */
  datatype Refresh = Refresh(now: int, podAt: int, namespaceAt: int)

  ghost predicate Run(run: seq<Refresh>) {
    && (forall i :: 0 <= i < |run| ==> run[i].now <= run[i].podAt <= run[i].namespaceAt)
    && forall i :: 0 <= i < |run| - 1 ==>
         && run[i].now <= run[i + 1].now && run[i].podAt <= run[i + 1].podAt
         && run[i].namespaceAt <= run[i + 1].namespaceAt
  }

  /** The schedule refresh `i` set for the pod monitor is the one in force at `t`, and fires then. */
  ghost predicate PodDeletedBy(run: seq<Refresh>, i: nat, t: int)
    requires i < |run|
  {
    && run[i].podAt < t && (i + 1 < |run| ==> t <= run[i + 1].podAt)
    && FiresAt(AddMinutes(10, run[i].now), t)
  }

  ghost predicate NamespaceDeletedBy(run: seq<Refresh>, i: nat, t: int)
    requires i < |run|
  {
    && run[i].namespaceAt < t && (i + 1 < |run| ==> t <= run[i + 1].namespaceAt)
    && FiresAt(AddMinutes(11, run[i].now), t)
  }

  /** Every refresh but the first takes effect within nine minutes of the clock reading before it. */
  ghost predicate KeptAlive(run: seq<Refresh>) {
    forall i :: 0 <= i < |run| - 1 ==> run[i + 1].namespaceAt <= run[i].now + 9 * MINUTE
  }

  /** While refreshes keep coming nothing is deleted. */
  lemma NothingDeletedWhileKeptAlive(run: seq<Refresh>, i: nat, t: int)
    requires Run(run) && KeptAlive(run) && i < |run| - 1
    ensures !PodDeletedBy(run, i, t) && !NamespaceDeletedBy(run, i, t)
  {
    var now := run[i].now;
    FirstFiring(10, now);
    FirstFiring(11, now);
    assert run[i].podAt <= run[i + 1].podAt <= run[i + 1].namespaceAt;
  }

  /**
   After the last refresh, if it took effect within nine minutes, both jobs fire, the pod monitor's
   first and the namespace's exactly a minute later, within eleven minutes of its clock reading.
   */
  lemma BothDeletedAfterTheLast(run: seq<Refresh>)
    requires Run(run) && run != []
    requires run[|run| - 1].namespaceAt <= run[|run| - 1].now + 9 * MINUTE
    ensures var i := |run| - 1;
            var t := MinuteStart(run[i].now + 10 * MINUTE);
            && PodDeletedBy(run, i, t) && NamespaceDeletedBy(run, i, t + MINUTE)
            && run[i].now + 9 * MINUTE < t && t + MINUTE <= run[i].now + 11 * MINUTE
            && (forall u :: u < t ==> !PodDeletedBy(run, i, u))
            && (forall u :: u < t + MINUTE ==> !NamespaceDeletedBy(run, i, u))
  {
    var now := run[|run| - 1].now;
    OneMinuteApart(now);
    FirstFiring(10, now);
    FirstFiring(11, now);
  }

  /** The firing a refresh schedules, and none between the refresh and it. */
  lemma FirstFiring(howMany: int, now: int)
    requires 1 <= howMany <= 1440
    ensures FiresAt(AddMinutes(howMany, now), MinuteStart(now + howMany * MINUTE))
    ensures now + (howMany - 1) * MINUTE < MinuteStart(now + howMany * MINUTE) <= now + howMany * MINUTE
    ensures forall u :: now < u < MinuteStart(now + howMany * MINUTE) ==> !FiresAt(AddMinutes(howMany, now), u)
  {
    NextFireAfterRefresh(howMany, now);
    NextFireIsFirst(AddMinutes(howMany, now), now);
  }

  const INTERVAL := 8 * 60 * 1000

  /** The timer's eight minutes leave one minute for a late tick and for replacing the jobs together. */
  lemma TimerKeepsAlive(run: seq<Refresh>, late: int, latency: int)
    requires Run(run) && late + latency <= MINUTE
    requires forall i :: 0 <= i < |run| - 1 ==> run[i + 1].now <= run[i].now + INTERVAL + late
    requires forall i :: 0 <= i < |run| ==> run[i].namespaceAt <= run[i].now + latency
    ensures KeptAlive(run)
  {
  }
}
