/** A worker's heartbeat against the two job reapers, in real time.

    One worker and one of its jobs are followed; the worker runs any number of other jobs.
    Publishing a heartbeat takes two steps: the active jobs are copied under the mutex, and
    the copy is written to Redis some time later. All clocks are taken to agree. */
module Heartbeat {
  import opened Text

  type JobId = string
  /** Seconds. */
  type Time = real

  /** `keyTTL`. */
  const KEY_TTL: Time := 30.0

  /** The part of the heartbeat payload the reapers read. */
  datatype Payload = Payload(currentJobID: JobId, activeJobs: map<JobId, string>)

  /** What `publish` may write for the given active jobs: all of them, and any one as the current job. */
  predicate PublishedFor(p: Payload, active: map<JobId, string>) {
    if active == map[] then p == Payload("", map[])
    else p.activeJobs == active && p.currentJobID in active
  }

  predicate IsActiveJob(p: Payload, job: JobId) {
    if |p.activeJobs| > 0 then job in p.activeJobs else p.currentJobID == job
  }

  /** A published payload names exactly the jobs that were active. */
  lemma PublishedNamesActive(p: Payload, active: map<JobId, string>, job: JobId)
    requires PublishedFor(p, active) && job != ""
    ensures IsActiveJob(p, job) <==> job in active
  {
    if active != map[] {
      var k :| k in active;
      assert |active| > 0;
    }
  }

  // ----- The registry

  datatype WorkerStatus = Starting | Idle | Busy | Draining

  /** The worker's own record of its jobs; every method runs under the mutex. */
  class Registry {
    var status: WorkerStatus
    var activeJobs: map<JobId, string>

    constructor ()
      ensures Valid() && status == Starting && activeJobs == map[]
    {
      status, activeJobs := Starting, map[];
    }

    /** The worker is busy exactly while some job is active. */
    predicate Valid()
      reads this
    {
      status == Busy <==> activeJobs != map[]
    }

    /** Lifecycle transitions drop every job; `busy` is not one of them and would break the rule above. */
    method SetStatus(status: WorkerStatus)
      modifies this
      ensures this.status == status && activeJobs == map[]
      ensures Valid() <==> status != Busy
    {
      this.status, activeJobs := status, map[];
    }

    method SetBusy(job: JobId, project: string)
      modifies this
      ensures Valid() && activeJobs == old(activeJobs)[job := project]
    {
      activeJobs := activeJobs[job := project];
      status := Busy;
      assert job in activeJobs;
    }

    method ClearJob(job: JobId)
      modifies this
      ensures activeJobs == old(activeJobs) - {job} && (old(Valid()) ==> Valid())
      ensures status == if activeJobs == map[] && old(status) == Busy then Idle else old(status)
    {
      activeJobs := activeJobs - {job};
      if |activeJobs| == 0 && status == Busy {
        status := Idle;
      }
    }

    /** The copy `publish` takes: the whole map, and any one job as the current one. */
    method CopyPayload() returns (p: Payload)
      ensures PublishedFor(p, activeJobs)
    {
      p := Payload("", map[]);
      if |activeJobs| > 0 {
        var job :| job in activeJobs;
        p := Payload(job, activeJobs);
      }
    }
  }

  // ----- The reapers' decisions

  /** The outcome of reading `worker:status:{id}`. */
  datatype Reading = ReadError | Missing | Malformed | Found(payload: Payload)

  datatype JobStatus = Queued | Running(startedAt: Time) | Failed

  /** `Checker.CheckAndReapIfDead`: whether it goes on to fail the job. */
  predicate CheckerReaps(status: JobStatus, workerID: string, job: JobId, now: Time, threshold: Time, reading: Reading) {
    && status.Running?
    && now - status.startedAt >= threshold
    && (workerID == "" ||
        match reading
        case ReadError => false
        case Malformed => false
        case Missing => true
        case Found(payload) => !IsActiveJob(payload, job))
  }

  /** `Reaper.RunOnce` on one job: listed as stale and not found alive. `scan` is the outcome of
      the search through all heartbeats made for jobs without a worker id. */
  predicate ReaperReaps(status: JobStatus, workerID: string, job: JobId, now: Time, threshold: Time, reading: Reading, scan: bool) {
    && status.Running?
    && status.startedAt < now - threshold
    && (if workerID == "" then !scan
        else
          match reading
          case ReadError => false
          case Malformed => true
          case Missing => true
          case Found(payload) => !IsActiveJob(payload, job))
  }

  // ----- The protocol

  datatype Copy = Copy(payload: Payload, copiedAt: Time)
  datatype Key = Key(payload: Payload, writtenAt: Time)

  datatype State = State(
    now: Time,
    active: map<JobId, string>,
    inflight: Option<Copy>,
    key: Option<Key>,
    busyAt: Option<Time>,
    status: JobStatus,
    doomed: bool)

  /** The checker and the reaper are configured with stale thresholds of their own. */
  datatype Config = Config(workerID: string, job: JobId, project: string, checkerThreshold: Time, reaperThreshold: Time)

  datatype Step =
    | Tick(duration: Time)
    | SetBusy
    | SetBusyOther(other: JobId, otherProject: string)
    | ClearOther(other: JobId)
    | PublishCopy(payload: Payload)
    | PublishWrite
    | PublishFailed
    | Claim
    | Check(failedRead: bool)
    | ReaperPass(failedRead: bool, scan: bool)
    | FailStaleJob

  predicate KeyLive(s: State) {
    s.key.Some? && s.now < s.key.value.writtenAt + KEY_TTL
  }

  /** What a reaper reads now: the key until it expires, unless Redis fails. */
  function ReadKey(s: State, failedRead: bool): Reading {
    if failedRead then ReadError
    else if KeyLive(s) then Found(s.key.value.payload)
    else Missing
  }

  predicate Next(c: Config, s: State, t: State, step: Step) {
    match step
    case Tick(duration) => duration >= 0.0 && t == s.(now := s.now + duration)
    case SetBusy => s.busyAt.None? && t == s.(active := s.active[c.job := c.project], busyAt := Some(s.now))
    case SetBusyOther(other, p) => other != c.job && t == s.(active := s.active[other := p])
    case ClearOther(other) => other != c.job && t == s.(active := s.active - {other})
    // One goroutine publishes, so a copy is made only after the previous one was disposed of.
    case PublishCopy(payload) =>
      s.inflight.None? && PublishedFor(payload, s.active) && t == s.(inflight := Some(Copy(payload, s.now)))
    case PublishWrite =>
      s.inflight.Some? && t == s.(key := Some(Key(s.inflight.value.payload, s.now)), inflight := None)
    case PublishFailed => s.inflight.Some? && t == s.(inflight := None)
    // The handler claims the job only after SetBusy.
    case Claim => s.busyAt.Some? && s.status.Queued? && t == s.(status := Running(s.now))
    case Check(failedRead) =>
      t == s.(doomed := s.doomed || CheckerReaps(s.status, c.workerID, c.job, s.now, c.checkerThreshold, ReadKey(s, failedRead)))
    case ReaperPass(failedRead, scan) =>
      t == s.(doomed := s.doomed || ReaperReaps(s.status, c.workerID, c.job, s.now, c.reaperThreshold, ReadKey(s, failedRead), scan))
    case FailStaleJob => s.doomed && s.status.Running? && t == s.(status := Failed)
  }

  predicate Init(c: Config, s: State) {
    && c.job != "" && c.workerID != ""
    && c.job !in s.active && s.busyAt.None? && s.status.Queued? && !s.doomed && s.inflight.None?
    && (s.key.Some? ==> s.key.value.writtenAt <= s.now)
  }

  /** A run in which the worker keeps the job: it is never cleared and no lifecycle change drops it. */
  ghost predicate Run(c: Config, states: seq<State>, steps: seq<Step>) {
    && |states| == |steps| + 1 && Init(c, states[0])
    && forall i :: 0 <= i < |steps| ==> Next(c, states[i], states[i + 1], steps[i])
  }

  predicate LiveIfHeld(s: State) {
    s.busyAt.Some? ==> KeyLive(s)
  }

  /** While the job is held, the key is rewritten before it expires. */
  ghost predicate LiveWhileHeld(states: seq<State>) {
    forall i :: 0 <= i < |states| ==> LiveIfHeld(states[i])
  }

  predicate InflightWithin(s: State, latency: Time) {
    s.busyAt.Some? && s.inflight.Some? ==> s.now <= s.inflight.value.copiedAt + latency
  }

  /** While the job is held, no heartbeat takes longer than `latency` from copy to write. */
  ghost predicate LatencyWithin(states: seq<State>, latency: Time) {
    forall i :: 0 <= i < |states| ==> InflightWithin(states[i], latency)
  }

  // ----- Decisions

  /** The job is running and was started at least `age` ago. */
  predicate RunningFor(s: State, age: Time) {
    s.status.Running? && s.now - s.status.startedAt >= age
  }

  predicate RunningLongerThan(s: State, age: Time) {
    s.status.Running? && s.now - s.status.startedAt > age
  }

  /** No heartbeat has been written within the TTL. */
  predicate NoHeartbeat(s: State) {
    s.key.None? || s.now - s.key.value.writtenAt >= 30.0
  }

  /** The latest heartbeat does not mention the job: not among the active jobs, or, from a worker
      that lists none, not as the current job. */
  predicate Unlisted(s: State, job: JobId) {
    s.key.Some? &&
    var p := s.key.value.payload;
    if p.activeJobs == map[] then p.currentJobID != job else job !in p.activeJobs
  }

  /** The checker gives up a job exactly when it has been running for the threshold and, if it
      belongs to a worker, the store can be read and shows no heartbeat, or one that does not list it. */
  lemma CheckDecides(c: Config, s: State, t: State, failedRead: bool)
    requires Next(c, s, t, Check(failedRead)) && !s.doomed
    ensures t.doomed <==>
            && RunningFor(s, c.checkerThreshold)
            && (c.workerID == "" || (!failedRead && (NoHeartbeat(s) || Unlisted(s, c.job))))
    ensures t == s.(doomed := t.doomed)
  {
  }

  /** The reaper's comparison is strict, and for a job without a worker it looks through all heartbeats. */
  lemma ReaperDecides(c: Config, s: State, t: State, failedRead: bool, scan: bool)
    requires Next(c, s, t, ReaperPass(failedRead, scan)) && !s.doomed
    ensures t.doomed <==>
            && RunningLongerThan(s, c.reaperThreshold)
            && (if c.workerID == "" then !scan else !failedRead && (NoHeartbeat(s) || Unlisted(s, c.job)))
    ensures t == s.(doomed := t.doomed)
  {
  }

  /** The two differ on a heartbeat that is there but cannot be parsed: the checker spares the job,
      the reaper fails it. */
  lemma MalformedHeartbeat(status: JobStatus, workerID: string, job: JobId, now: Time, threshold: Time, scan: bool)
    requires status.Running? && workerID != ""
    ensures !CheckerReaps(status, workerID, job, now, threshold, Malformed)
    ensures ReaperReaps(status, workerID, job, now, threshold, Malformed, scan) <==> now - status.startedAt > threshold
  {
  }

  /** A job whose worker is dead is failed by either reaper: one pass that can read the store, and
      the update, suffice. */
  lemma DeadWorkersJobFails(c: Config, s: State, scan: bool) returns (t1: State, t2: State, u1: State, u2: State)
    requires c.workerID != "" && NoHeartbeat(s)
    ensures RunningFor(s, c.checkerThreshold) ==>
              Next(c, s, t1, Check(false)) && Next(c, t1, t2, FailStaleJob) && t2.status.Failed?
    ensures RunningLongerThan(s, c.reaperThreshold) ==>
              Next(c, s, u1, ReaperPass(false, scan)) && Next(c, u1, u2, FailStaleJob) && u2.status.Failed?
  {
    t1 := s.(doomed := true);
    t2 := t1.(status := Failed);
    u1, u2 := t1, t2;
  }

  // ----- Safety

  /** A heartbeat written more than `latency` after SetBusy was copied after it and lists the job. */
  predicate Inv(c: Config, s: State, latency: Time) {
    && !s.doomed && !s.status.Failed?
    && (s.busyAt.Some? ==> c.job in s.active && s.busyAt.value <= s.now)
    && (s.status.Running? ==> s.busyAt.Some? && s.busyAt.value <= s.status.startedAt)
    && (s.inflight.Some? && s.busyAt.Some? && s.inflight.value.copiedAt > s.busyAt.value ==> IsActiveJob(s.inflight.value.payload, c.job))
    && (s.inflight.Some? ==> s.inflight.value.copiedAt <= s.now)
    && (s.key.Some? ==> s.key.value.writtenAt <= s.now)
    && (s.key.Some? && s.busyAt.Some? && s.key.value.writtenAt > s.busyAt.value + latency ==> IsActiveJob(s.key.value.payload, c.job))
  }

  /** Both thresholds leave room for a heartbeat that was in flight when the job was taken. */
  predicate ThresholdsAtLeast(c: Config, t: Time) {
    c.checkerThreshold >= t && c.reaperThreshold >= t
  }

  /** Neither reaper decides against the job. */
  lemma NotReaped(c: Config, s: State, latency: Time, failedRead: bool, scan: bool)
    requires Inv(c, s, latency) && LiveIfHeld(s) && c.workerID != "" && ThresholdsAtLeast(c, KEY_TTL + latency)
    ensures !CheckerReaps(s.status, c.workerID, c.job, s.now, c.checkerThreshold, ReadKey(s, failedRead))
    ensures !ReaperReaps(s.status, c.workerID, c.job, s.now, c.reaperThreshold, ReadKey(s, failedRead), scan)
  {
  }

  lemma NextPreserves(c: Config, s: State, t: State, step: Step, latency: Time)
    requires c.job != "" && c.workerID != "" && latency >= 0.0 && ThresholdsAtLeast(c, KEY_TTL + latency)
    requires Inv(c, s, latency) && LiveIfHeld(s) && InflightWithin(s, latency) && Next(c, s, t, step)
    ensures Inv(c, t, latency)
  {
    match step
    case PublishCopy(payload) => PublishedNamesActive(payload, s.active, c.job);
    case Check(failedRead) => NotReaped(c, s, latency, failedRead, false);
    case ReaperPass(failedRead, scan) => NotReaped(c, s, latency, failedRead, scan);
    case _ =>
  }

  lemma {:induction false} RunKeepsInv(c: Config, states: seq<State>, steps: seq<Step>, latency: Time, k: nat)
    requires Run(c, states, steps) && LiveWhileHeld(states) && LatencyWithin(states, latency) && latency >= 0.0
    requires ThresholdsAtLeast(c, KEY_TTL + latency) && k < |states|
    ensures Inv(c, states[k], latency)
  {
    if k > 0 {
      RunKeepsInv(c, states, steps, latency, k - 1);
      assert Next(c, states[k - 1], states[k - 1 + 1], steps[k - 1]);
      NextPreserves(c, states[k - 1], states[k], steps[k - 1], latency);
    }
  }

  /** While the key stays alive and heartbeats take at most `latency` to land, a held job is
      never failed if both stale thresholds are at least the TTL plus that latency. */
  lemma HeldJobNeverReaped(c: Config, states: seq<State>, steps: seq<Step>, latency: Time)
    requires Run(c, states, steps) && LiveWhileHeld(states) && LatencyWithin(states, latency) && latency >= 0.0
    requires ThresholdsAtLeast(c, KEY_TTL + latency)
    ensures forall k :: 0 <= k < |states| ==> !states[k].doomed && !states[k].status.Failed?
  {
    forall k | 0 <= k < |states|
      ensures !states[k].doomed && !states[k].status.Failed?
    {
      RunKeepsInv(c, states, steps, latency, k);
    }
  }

  /** A key that stays alive while the job is held bounds the latency by itself: the copy in flight was made after the
      live key was written. */
  predicate CopyAfterWrite(s: State) {
    s.inflight.Some? && s.key.Some? ==> s.key.value.writtenAt <= s.inflight.value.copiedAt
  }

  lemma {:induction false} LiveKeyBoundsLatency(c: Config, states: seq<State>, steps: seq<Step>, k: nat)
    requires Run(c, states, steps) && LiveWhileHeld(states) && k < |states|
    ensures CopyAfterWrite(states[k]) && InflightWithin(states[k], KEY_TTL)
    ensures states[k].key.Some? ==> states[k].key.value.writtenAt <= states[k].now
  {
    if k > 0 {
      LiveKeyBoundsLatency(c, states, steps, k - 1);
      assert Next(c, states[k - 1], states[k - 1 + 1], steps[k - 1]);
      assert LiveIfHeld(states[k]);
    }
  }

  /** Without any assumption on latency: thresholds of twice the TTL are always enough. */
  lemma HeldJobNeverReapedAtTwiceTTL(c: Config, states: seq<State>, steps: seq<Step>)
    requires Run(c, states, steps) && LiveWhileHeld(states)
    requires ThresholdsAtLeast(c, 2.0 * KEY_TTL)
    ensures forall k :: 0 <= k < |states| ==> !states[k].doomed && !states[k].status.Failed?
  {
    forall k | 0 <= k < |states|
      ensures InflightWithin(states[k], KEY_TTL)
    {
      LiveKeyBoundsLatency(c, states, steps, k);
    }
    HeldJobNeverReaped(c, states, steps, KEY_TTL);
  }

  /** A run with a live key and bounded latency that ends in `last`. */
  ghost predicate TimelyRun(c: Config, states: seq<State>, steps: seq<Step>, latency: Time, last: State) {
    && Run(c, states, steps) && LiveWhileHeld(states) && LatencyWithin(states, latency)
    && states[|states| - 1] == last
  }

  lemma Extended(c: Config, states: seq<State>, steps: seq<Step>, latency: Time, s: State, step: Step, t: State)
    requires TimelyRun(c, states, steps, latency, s) && Next(c, s, t, step) && LiveIfHeld(t) && InflightWithin(t, latency)
    ensures TimelyRun(c, states + [t], steps + [step], latency, t)
  {
    hide Next, LiveIfHeld, InflightWithin, Init;
    var longer := states + [t];
    forall i | 0 <= i < |steps + [step]|
      ensures Next(c, longer[i], longer[i + 1], (steps + [step])[i])
    {
      if i < |steps| { assert Next(c, states[i], states[i + 1], steps[i]); }
    }
  }

  /** The worker takes the job with a heartbeat in flight that does not list it yet, and the
      heartbeat lands `latency` later. */
  lemma LateHeartbeat(c: Config, latency: Time) returns (states: seq<State>, steps: seq<Step>, last: State)
    requires c.job != "" && c.workerID != "" && 0.0 <= latency < KEY_TTL
    ensures TimelyRun(c, states, steps, latency, last) && last.now == latency && last.inflight.None? && !last.doomed
    ensures last.key == Some(Key(Payload("", map[]), latency)) && last.status == Running(0.0)
  {
    var idle := Payload("", map[]);
    var s0 := State(0.0, map[], None, Some(Key(idle, 0.0)), None, Queued, false);
    var s1 := s0.(inflight := Some(Copy(idle, 0.0)));
    var s2 := s1.(active := s1.active[c.job := c.project], busyAt := Some(0.0));
    var s3 := s2.(status := Running(0.0));
    var s4 := s3.(now := latency);
    last := s4.(key := Some(Key(idle, latency)), inflight := None);
    states, steps := [s0], [];
    assert TimelyRun(c, states, steps, latency, s0);
    hide TimelyRun;
    Extended(c, states, steps, latency, s0, PublishCopy(idle), s1);
    states, steps := states + [s1], steps + [PublishCopy(idle)];
    Extended(c, states, steps, latency, s1, SetBusy, s2);
    states, steps := states + [s2], steps + [SetBusy];
    Extended(c, states, steps, latency, s2, Claim, s3);
    states, steps := states + [s3], steps + [Claim];
    Extended(c, states, steps, latency, s3, Tick(latency), s4);
    states, steps := states + [s4], steps + [Tick(latency)];
    Extended(c, states, steps, latency, s4, PublishWrite, last);
    states, steps := states + [last], steps + [PublishWrite];
  }

  /** The bound is exact, for each reaper: below it, a heartbeat copied just before SetBusy and
      written `latency` later is still readable when the job counts as stale, and the job is failed. */
  lemma ShortThresholdReaps(c: Config, latency: Time, byChecker: bool) returns (states: seq<State>, steps: seq<Step>)
    requires c.job != "" && c.workerID != "" && 0.0 <= latency < KEY_TTL
    requires (if byChecker then c.checkerThreshold else c.reaperThreshold) < KEY_TTL + latency
    ensures Run(c, states, steps) && LiveWhileHeld(states) && LatencyWithin(states, latency)
    ensures states[|states| - 1].status.Failed?
  {
    var threshold := if byChecker then c.checkerThreshold else c.reaperThreshold;
    var late := if threshold < latency then latency else threshold;
    var stale := (late + KEY_TTL + latency) / 2.0;
    var pass := if byChecker then Check(false) else ReaperPass(false, false);
    var s0;
    states, steps, s0 := LateHeartbeat(c, latency);
    var s1 := s0.(now := stale);
    var s2 := s1.(doomed := true);
    var s3 := s2.(status := Failed);
    Extended(c, states, steps, latency, s0, Tick(stale - latency), s1);
    states, steps := states + [s1], steps + [Tick(stale - latency)];
    Extended(c, states, steps, latency, s1, pass, s2);
    states, steps := states + [s2], steps + [pass];
    Extended(c, states, steps, latency, s2, FailStaleJob, s3);
    states, steps := states + [s3], steps + [FailStaleJob];
  }

  /** No run with a live key and heartbeats this fast ever fails the held job. */
  ghost predicate Safe(c: Config, latency: Time) {
    forall states: seq<State>, steps: seq<Step> :: Run(c, states, steps) && LiveWhileHeld(states) && LatencyWithin(states, latency) ==>
      forall k :: 0 <= k < |states| ==> !states[k].status.Failed?
  }

  /** How much of the latency counts: a live key never lets a heartbeat take as long as the TTL. */
  function Effective(latency: Time): Time {
    if latency < KEY_TTL then latency else KEY_TTL
  }

  lemma LargeThresholdsAreSafe(c: Config, latency: Time)
    requires latency >= 0.0 && ThresholdsAtLeast(c, KEY_TTL + Effective(latency))
    ensures Safe(c, latency)
  {
    forall states: seq<State>, steps: seq<Step> | Run(c, states, steps) && LiveWhileHeld(states) && LatencyWithin(states, latency)
      ensures forall k :: 0 <= k < |states| ==> !states[k].status.Failed?
    {
      if latency < KEY_TTL {
        HeldJobNeverReaped(c, states, steps, latency);
      } else {
        HeldJobNeverReapedAtTwiceTTL(c, states, steps);
      }
    }
  }

  /** A latency below the TTL that is already too long for the threshold. */
  lemma CriticalLatency(threshold: Time, latency: Time) returns (critical: Time)
    requires latency >= 0.0 && threshold < KEY_TTL + Effective(latency)
    ensures 0.0 <= critical < KEY_TTL && critical <= latency && threshold < KEY_TTL + critical
  {
    if latency < KEY_TTL {
      critical := latency;
    } else if threshold < KEY_TTL {
      critical := 0.0;
    } else {
      critical := threshold / 2.0;
    }
  }

  /** A held job is safe exactly when both stale thresholds are at least the TTL plus the latency,
      of which no more than another TTL counts. */
  lemma ThresholdIsExact(c: Config, latency: Time)
    requires c.job != "" && c.workerID != "" && latency >= 0.0
    ensures Safe(c, latency) <==> ThresholdsAtLeast(c, KEY_TTL + Effective(latency))
  {
    if ThresholdsAtLeast(c, KEY_TTL + Effective(latency)) {
      LargeThresholdsAreSafe(c, latency);
    } else {
      var byChecker := c.checkerThreshold < KEY_TTL + Effective(latency);
      var critical := CriticalLatency(if byChecker then c.checkerThreshold else c.reaperThreshold, latency);
      var states, steps := ShortThresholdReaps(c, critical, byChecker);
      assert LatencyWithin(states, latency);
    }
  }
}
