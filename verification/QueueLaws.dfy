/** What each queue operation means for a caller, field by field, and what follows over whole runs. */
module QueueLaws {
  import opened Ordering
  import opened QueueModel
  import opened QueueRuns

  // ----- Waiting times -----

  /** Exponential growth: the base at first, twice as much each time. */
  lemma Doubling(base: int, n: nat)
    ensures Doubled(base, 0) == base && Doubled(base, n + 1) == 2 * Doubled(base, n)
  {
  }

  /** The wait after the n-th failure: `base * 2^(n - 1)` capped by the maximum, and at most a quarter or one second more. */
  lemma DelayBounds(digest: nat, n: int, policy: QueuePolicy)
    requires ValidPolicy(policy) && n >= 1
    ensures RetryDelay(digest, n, policy).Some?
    ensures var delay, exponential := RetryDelay(digest, n, policy).value, Min(policy.maxRetrySeconds, Doubled(policy.baseRetrySeconds, n - 1));
            && policy.baseRetrySeconds <= exponential <= delay <= policy.maxRetrySeconds
            && (delay <= exponential + exponential / 4 || delay <= exponential + 1)
  {
    DoubledGrows(policy.baseRetrySeconds, n - 1);
  }

  /** A later failure waits no less, whatever the digests are. */
  lemma {:induction false} DelayMonotone(digest: nat, n: int, digest': nat, n': int, policy: QueuePolicy)
    requires ValidPolicy(policy) && 1 <= n < n'
    ensures RetryDelay(digest, n, policy).Some? && RetryDelay(digest', n', policy).Some?
    ensures RetryDelay(digest, n, policy).value <= RetryDelay(digest', n', policy).value
    decreases n'
  {
    if n + 1 == n' {
      RetryDelayMonotone(digest, digest', n, policy);
    } else {
      DelayMonotone(digest, n, 0, n' - 1, policy);
      RetryDelayMonotone(0, digest', n' - 1, policy);
    }
  }

  // ----- One job -----

  /** What no operation on a stored job changes. */
  ghost predicate SameSubmission(a: Job, b: Job) {
    && a.tenant == b.tenant && a.workspace == b.workspace && a.id == b.id && a.jobType == b.jobType && a.key == b.key
    && a.payload == b.payload && a.maxAttempts == b.maxAttempts && a.createdAt == b.createdAt && a.replayOf == b.replayOf
  }

  ghost predicate NoLease(j: Job) {
    j.leaseOwner.None? && j.leaseExpiresAt.None? && j.heartbeatAt.None?
  }

  /** The worker holds the job under a lease that has not expired. */
  ghost predicate Holds(j: Job, worker: string, now: int) {
    j.state == Claimed && j.leaseOwner == Some(worker) && j.leaseExpiresAt.Some? && now <= j.leaseExpiresAt.value
  }

  /** The job waits and its time has come. */
  ghost predicate Due(j: Job, now: int) {
    (j.state == Pending || j.state == RetryScheduled) && j.nextAttemptAt <= now
  }

  /** Only this job is stored anew. */
  ghost predicate Stores(s: State, t: State, j: Job) {
    t == s.(jobs := s.jobs[j.id := j])
  }

  // ----- Failing -----

  /** What failing makes of a job held by `worker`. */
  ghost predicate FailedJob(j: Job, f: Job, settings: Settings, worker: string, now: int, reason: string, retryable: bool) {
    && SameSubmission(j, f) && NoLease(f) && f.attempts == j.attempts + 1 && f.completedAt == j.completedAt && f.result == j.result
    && f.history == j.history + [FailedBy(worker, reason, now)]
    && if !retryable || j.attempts + 1 >= j.maxAttempts then
         f.state == DeadLetter && f.deadLetterReason == Some(reason) && f.nextAttemptAt == j.nextAttemptAt
       else
         && f.state == RetryScheduled && f.deadLetterReason == j.deadLetterReason
         && Backoff(settings.policy, f.attempts, f.nextAttemptAt - now)
  }

  /** The wait after the n-th failure. */
  ghost predicate Backoff(policy: QueuePolicy, n: nat, wait: int) {
    && n >= 1
    && var exponential := Min(policy.maxRetrySeconds, Doubled(policy.baseRetrySeconds, n - 1));
       && policy.baseRetrySeconds <= exponential <= wait <= policy.maxRetrySeconds
       && (wait <= exponential + exponential / 4 || wait <= exponential + 1)
  }

  /** Fails for the live owner with a reason, and schedules a retry after backoff or gives up; otherwise it says why not. */
  lemma FailMeans(s: State, settings: Settings, id: string, worker: string, now: int, reason: string, retryable: bool)
    requires ValidPolicy(settings.policy) && WellNamed(s)
    ensures var o := Fail(s, settings, id, worker, now, reason, retryable);
            if Blank(reason) then o == Rejected(ReasonRequired)
            else if id !in s.jobs then o == Rejected(UnknownJob)
            else if !Holds(s.jobs[id], worker, now) then o == Rejected(NotOwner)
            else o.Accepted? && o.job.id == id && Stores(s, o.state, o.job) &&
                 FailedJob(s.jobs[id], o.job, settings, worker, now, reason, retryable)
  {
    if !Blank(reason) && id in s.jobs && Holds(s.jobs[id], worker, now) {
      var attempts := s.jobs[id].attempts + 1;
      DelayBounds(settings.digest(s.jobs[id].key, attempts), attempts, settings.policy);
    }
  }

  // ----- Claiming -----

  /** Of two due jobs the first to be claimed: the tenant served longest ago, then age, then names. */
  ghost predicate EarlierClaim(s: State, a: Job, b: Job) {
    var la, lb := if a.tenant in s.lastClaim then s.lastClaim[a.tenant] else -1, if b.tenant in s.lastClaim then s.lastClaim[b.tenant] else -1;
    && la <= lb
    && (la == lb ==> a.createdAt <= b.createdAt)
    && (la == lb && a.createdAt == b.createdAt ==> a.tenant == b.tenant || StrLess(a.tenant, b.tenant))
    && (la == lb && a.createdAt == b.createdAt && a.tenant == b.tenant ==> a.workspace == b.workspace || StrLess(a.workspace, b.workspace))
    && (la == lb && a.createdAt == b.createdAt && a.tenant == b.tenant && a.workspace == b.workspace ==> StrLess(a.id, b.id))
  }

  lemma BeforeIsEarlier(s: State, a: Job, b: Job)
    requires ClaimsBefore(s, a, b)
    ensures EarlierClaim(s, a, b)
  {
    if StrLess(a.tenant, b.tenant) { StrAsymmetric(a.tenant, b.tenant); }
    if StrLess(a.workspace, b.workspace) { StrAsymmetric(a.workspace, b.workspace); }
  }

  /** What claiming makes of a job. */
  ghost predicate ClaimedAs(j: Job, c: Job, policy: QueuePolicy, worker: string, now: int) {
    && SameSubmission(j, c) && c.state == Claimed && c.attempts == j.attempts && c.nextAttemptAt == j.nextAttemptAt
    && c.leaseOwner == Some(worker) && c.leaseExpiresAt == Some(now + policy.leaseDuration) && c.heartbeatAt == Some(now)
    && c.completedAt == j.completedAt && c.result == j.result && c.deadLetterReason == j.deadLetterReason
    && c.history == j.history + [ClaimedBy(worker, now)]
  }

  /** Hands out a due job exactly if there is one, the earliest by the claim key, and moves its tenant's clock past all others. */
  lemma ClaimMeans(s: State, settings: Settings, worker: string, now: int)
    requires WellNamed(s)
    ensures var o := ClaimNext(s, settings, worker, now);
            && (o.ClaimRejected? <==> Blank(worker)) && (o.ClaimRejected? ==> o.error == WorkerRequired)
            && (o.NothingEligible? <==> !Blank(worker) && forall id :: id in s.jobs ==> !Due(s.jobs[id], now))
            && (o.ClaimedJob? ==>
                  && o.job.id in s.jobs && Due(s.jobs[o.job.id], now) && ClaimedAs(s.jobs[o.job.id], o.job, settings.policy, worker, now)
                  && (forall id :: id in s.jobs && Due(s.jobs[id], now) && id != o.job.id ==> EarlierClaim(s, s.jobs[o.job.id], s.jobs[id]))
                  && o.state == State(s.jobs[o.job.id := o.job], s.idempotency, s.lastClaim[o.job.tenant := s.counter + 1], s.counter + 1))
  {
    var candidates := EligibleIds(s, now);
    assert forall id :: id in candidates <==> id in s.jobs && Due(s.jobs[id], now);
    if ClaimNext(s, settings, worker, now).ClaimedJob? {
      var id := SelectedId(s, settings, worker, now);
      forall other | other in s.jobs && Due(s.jobs[other], now) && other != id ensures EarlierClaim(s, s.jobs[id], s.jobs[other]) {
        assert ClaimsBefore(s, s.jobs[id], s.jobs[other]);
        BeforeIsEarlier(s, s.jobs[id], s.jobs[other]);
      }
    }
  }

  // ----- Heartbeat and completion -----

  /** Extends the lease of the live owner and changes nothing else; otherwise it says why not. */
  lemma HeartbeatMeans(s: State, settings: Settings, id: string, worker: string, now: int)
    requires WellNamed(s)
    ensures var o := Heartbeat(s, settings, id, worker, now);
            if id !in s.jobs then o == Rejected(UnknownJob)
            else if !Holds(s.jobs[id], worker, now) then o == Rejected(NotOwner)
            else o.Accepted? && Stores(s, o.state, o.job) &&
                 o.job == s.jobs[id].(leaseExpiresAt := Some(now + settings.policy.leaseDuration), heartbeatAt := Some(now))
  {
  }

  ghost predicate CompletedAs(j: Job, c: Job, worker: string, now: int, result: string) {
    && SameSubmission(j, c) && NoLease(c) && c.state == Completed && c.completedAt == Some(now) && c.result == Some(result)
    && c.attempts == j.attempts && c.nextAttemptAt == j.nextAttemptAt && c.deadLetterReason == j.deadLetterReason
    && c.history == j.history + [CompletedBy(worker, now)]
  }

  /** Completes for the live owner, with result and time, and gives the lease back; otherwise it says why not. */
  lemma CompleteMeans(s: State, id: string, worker: string, now: int, result: string)
    requires WellNamed(s)
    ensures var o := Complete(s, id, worker, now, result);
            if id !in s.jobs then o == Rejected(UnknownJob)
            else if !Holds(s.jobs[id], worker, now) then o == Rejected(NotOwner)
            else o.Accepted? && o.job.id == id && Stores(s, o.state, o.job) && CompletedAs(s.jobs[id], o.job, worker, now, result)
  {
  }

  // ----- Recovery -----

  ghost predicate RecoveredAs(j: Job, r: Job, now: int) {
    && SameSubmission(j, r) && NoLease(r) && r.attempts == j.attempts + 1 && r.completedAt == j.completedAt && r.result == j.result
    && if j.attempts + 1 >= j.maxAttempts then
         && r.state == DeadLetter && r.deadLetterReason == Some("lease_expired")
         && r.nextAttemptAt == j.nextAttemptAt && r.history == j.history
       else
         && r.state == Pending && r.deadLetterReason == j.deadLetterReason
         && r.nextAttemptAt == now && r.history == j.history + [LeaseExpired(now)]
  }

  /** Every claimed job whose lease ended before now loses an attempt and is due at once, or is given up; nothing else changes. */
  lemma RecoverMeans(s: State, now: int)
    ensures var t := RecoverExpired(s, now);
            && t.jobs.Keys == s.jobs.Keys && t.idempotency == s.idempotency && t.lastClaim == s.lastClaim && t.counter == s.counter
            && forall id :: id in s.jobs ==>
                              if s.jobs[id].state == Claimed && s.jobs[id].leaseExpiresAt.Some? && s.jobs[id].leaseExpiresAt.value < now
                              then RecoveredAs(s.jobs[id], t.jobs[id], now)
                              else t.jobs[id] == s.jobs[id]
  {
  }

  /** At any time a claimed job is either its owner's to end or recovery's to take back, never both and never neither. */
  lemma LeaseDividesTime(s: State, id: string, now: int, text: string)
    requires Invariant(s) && id in s.jobs && s.jobs[id].state == Claimed
    ensures s.jobs[id].leaseOwner.Some?
    ensures Complete(s, id, s.jobs[id].leaseOwner.value, now, text).Accepted? <==> RecoverExpired(s, now).jobs[id] == s.jobs[id]
    ensures forall other :: Some(other) != s.jobs[id].leaseOwner ==> Complete(s, id, other, now, text).Rejected?
  {
    assert JobInvariant(s.jobs[id]);
  }

  // ----- Submission and replay -----

  /** A job as it is first stored. */
  ghost predicate Submitted(j: Job, sub: JobSubmission, now: int) {
    && j.tenant == sub.tenant && j.workspace == sub.workspace && j.id == sub.id && j.jobType == sub.jobType && j.key == sub.key
    && j.payload == sub.payload && j.maxAttempts == sub.maxAttempts
    && j.state == Pending && j.attempts == 0 && j.nextAttemptAt == now && j.createdAt == now && NoLease(j)
    && j.completedAt.None? && j.result.None? && j.deadLetterReason.None?
  }

  ghost predicate SameKey(j: Job, sub: JobSubmission) {
    j.tenant == sub.tenant && j.workspace == sub.workspace && j.key == sub.key
  }

  ghost predicate Acceptable(sub: JobSubmission) {
    && !Blank(sub.tenant) && !Blank(sub.workspace) && !Blank(sub.id) && !Blank(sub.jobType) && !Blank(sub.key)
    && sub.maxAttempts >= 1
  }

  /** What storing a job not stored before leaves. */
  ghost predicate Adds(s: State, t: State, j: Job) {
    && t.jobs == s.jobs[j.id := j] && t.lastClaim == s.lastClaim && t.counter == s.counter
    && t.idempotency == s.idempotency[IdempotencyKey(j.tenant, j.workspace, j.key) := j.id]
  }

  /** A job with the scope and key comes back unchanged; otherwise a new identifier stores a pending job, and a used one is an error. */
  lemma SubmitMeans(s: State, sub: JobSubmission, now: int)
    requires Invariant(s)
    ensures var o := Submit(s, sub, now);
            if !Acceptable(sub) then o == Rejected(InvalidSubmission)
            else if exists id :: id in s.jobs && SameKey(s.jobs[id], sub) then
              o.Accepted? && o.state == s && o.job.id in s.jobs && s.jobs[o.job.id] == o.job && SameKey(o.job, sub)
            else if sub.id in s.jobs then o == Rejected(DuplicateJobId)
            else o.Accepted? && Submitted(o.job, sub, now) && o.job.replayOf.None? && o.job.history == [] && Adds(s, o.state, o.job)
  {
    KeyStored(s, sub);
  }

  lemma KeyStored(s: State, sub: JobSubmission)
    requires Invariant(s)
    ensures (exists id :: id in s.jobs && SameKey(s.jobs[id], sub)) <==> IdempotencyKey(sub.tenant, sub.workspace, sub.key) in s.idempotency
  {
    var k := IdempotencyKey(sub.tenant, sub.workspace, sub.key);
    if k in s.idempotency {
      assert SameKey(s.jobs[s.idempotency[k]], sub);
    }
    if id :| id in s.jobs && SameKey(s.jobs[id], sub) {
      assert KeyOf(s.jobs[id]) == k;
    }
  }

  /** The submission a replay makes of a dead letter. */
  ghost predicate Replays(original: Job, replayId: string, sub: JobSubmission) {
    && sub.tenant == original.tenant && sub.workspace == original.workspace && sub.id == replayId && sub.jobType == original.jobType
    && sub.key == "replay:" + replayId + ":" + original.key && sub.payload == original.payload && sub.maxAttempts == original.maxAttempts
  }

  /** Replays only dead letters, for a named actor, as a fresh pending job that points back; the dead letter stays. */
  lemma ReplayMeans(s: State, id: string, replayId: string, actor: string, now: int)
    requires Invariant(s)
    ensures var o := ReplayDeadLetter(s, id, replayId, actor, now);
            if id !in s.jobs then o == Rejected(UnknownJob)
            else if s.jobs[id].state != DeadLetter then o == Rejected(NotDeadLetter)
            else if Blank(actor) then o == Rejected(AuthorizerRequired)
            else
              var sub := ReplaySubmission(s.jobs[id], replayId);
              && Replays(s.jobs[id], replayId, sub)
              && if !Acceptable(sub) then o == Rejected(InvalidSubmission)
                 else if exists other :: other in s.jobs && SameKey(s.jobs[other], sub) then
                   o.Accepted? && o.state == s && o.job.id in s.jobs && s.jobs[o.job.id] == o.job && SameKey(o.job, sub)
                 else if replayId in s.jobs then o == Rejected(DuplicateJobId)
                 else o.Accepted? && Submitted(o.job, sub, now) && o.job.replayOf == Some(id) && o.job.history == [ReplayedBy(actor, now)] &&
                      Adds(s, o.state, o.job)
  {
    if id in s.jobs {
      KeyStored(s, ReplaySubmission(s.jobs[id], replayId));
    }
  }

  // ----- Over whole runs -----

  /** A stored job stays stored, as the same submission, with no fewer attempts used. */
  ghost predicate Kept(s: State, t: State, id: string) {
    id in s.jobs && id in t.jobs && SameSubmission(s.jobs[id], t.jobs[id]) && s.jobs[id].attempts <= t.jobs[id].attempts
  }

  lemma EnqueueKept(s: State, job: Job, id: string)
    requires Indexed(s) && id in s.jobs
    ensures Kept(s, After(s, Enqueue(s, job)), id)
  {
    EnqueueUntouched(s, job, id);
  }

  lemma ClaimKept(s: State, settings: Settings, worker: string, now: int, id: string)
    requires WellNamed(s) && id in s.jobs && ClaimNext(s, settings, worker, now).ClaimedJob?
    ensures Kept(s, ClaimNext(s, settings, worker, now).state, id)
  {
    ClaimMeans(s, settings, worker, now);
  }

  lemma HeartbeatKept(s: State, settings: Settings, other: string, worker: string, now: int, id: string)
    requires WellNamed(s) && id in s.jobs
    ensures Kept(s, After(s, Heartbeat(s, settings, other, worker, now)), id)
  {
    HeartbeatMeans(s, settings, other, worker, now);
  }

  lemma CompleteKept(s: State, other: string, worker: string, now: int, result: string, id: string)
    requires WellNamed(s) && id in s.jobs
    ensures Kept(s, After(s, Complete(s, other, worker, now, result)), id)
  {
    CompleteMeans(s, other, worker, now, result);
  }

  lemma FailKept(s: State, settings: Settings, other: string, worker: string, now: int, reason: string, retryable: bool, id: string)
    requires ValidPolicy(settings.policy) && WellNamed(s) && id in s.jobs
    ensures Kept(s, After(s, Fail(s, settings, other, worker, now, reason, retryable)), id)
  {
    FailMeans(s, settings, other, worker, now, reason, retryable);
  }

  lemma RecoverKept(s: State, now: int, id: string)
    requires id in s.jobs
    ensures Kept(s, RecoverExpired(s, now), id)
  {
    RecoverMeans(s, now);
  }

  lemma ReplayKept(s: State, other: string, replayId: string, actor: string, now: int, id: string)
    requires Indexed(s) && id in s.jobs
    ensures Kept(s, After(s, ReplayDeadLetter(s, other, replayId, actor, now)), id)
  {
    ReplayUntouched(s, other, replayId, actor, now, id);
  }

  lemma StepKept(s: State, settings: Settings, e: Event, id: string)
    requires ValidPolicy(settings.policy) && Invariant(s) && id in s.jobs
    ensures Kept(s, Step(s, settings, e), id)
  {
    match e.op
    case SubmitOp(submission) => EnqueueKept(s, PendingJob(submission, e.now), id);
    case ClaimOp(worker) => if ClaimNext(s, settings, worker, e.now).ClaimedJob? { ClaimKept(s, settings, worker, e.now, id); }
    case HeartbeatOp(other, worker) => HeartbeatKept(s, settings, other, worker, e.now, id);
    case CompleteOp(other, worker, result) => CompleteKept(s, other, worker, e.now, result, id);
    case FailOp(other, worker, reason, retryable) => FailKept(s, settings, other, worker, e.now, reason, retryable, id);
    case RecoverOp => RecoverKept(s, e.now, id);
    case ReplayOp(other, replayId, actor) => ReplayKept(s, other, replayId, actor, e.now, id);
  }

  lemma {:induction false} RunKept(s: State, settings: Settings, run: seq<Event>, id: string)
    requires ValidPolicy(settings.policy) && Invariant(s) && id in s.jobs
    ensures Kept(s, Exec(s, settings, run), id)
    decreases |run|
  {
    if run != [] {
      StepKeeps(s, settings, run[0]);
      StepKept(s, settings, run[0], id);
      RunKept(Step(s, settings, run[0]), settings, run[1..], id);
    }
  }

  /** A retryable failure: the job it leaves, and how long that has to wait. */
  ghost predicate Retries(s: State, settings: Settings, id: string, worker: string, now: int, reason: string, wait: int)
    requires ValidPolicy(settings.policy)
  {
    var o := Fail(s, settings, id, worker, now, reason, true);
    o.Accepted? && o.job.state == RetryScheduled && o.job.nextAttemptAt == now + wait
  }

  lemma RetryWait(s: State, settings: Settings, id: string, worker: string, now: int, reason: string, wait: int)
    requires ValidPolicy(settings.policy) && Retries(s, settings, id, worker, now, reason, wait)
    ensures id in s.jobs
    ensures RetryDelay(settings.digest(s.jobs[id].key, s.jobs[id].attempts + 1), s.jobs[id].attempts + 1, settings.policy) == Some(wait)
  {
  }

  /** Whatever happens in between, a later failure of a job never makes it wait less than an earlier one did. */
  lemma LaterFailureWaitsLonger(s: State, settings: Settings, id: string, worker: string, now: int, reason: string, wait: int,
                                run: seq<Event>, worker': string, now': int, reason': string, wait': int)
    requires ValidPolicy(settings.policy) && Invariant(s) && Retries(s, settings, id, worker, now, reason, wait)
    requires var t := After(s, Fail(s, settings, id, worker, now, reason, true));
             Invariant(t) && Retries(Exec(t, settings, run), settings, id, worker', now', reason', wait')
    ensures wait <= wait'
  {
    var t := After(s, Fail(s, settings, id, worker, now, reason, true));
    var u := Exec(t, settings, run);
    RetryWait(s, settings, id, worker, now, reason, wait);
    FailMeans(s, settings, id, worker, now, reason, true);
    RunKept(t, settings, run, id);
    RetryWait(u, settings, id, worker', now', reason', wait');
    var n, n' := s.jobs[id].attempts + 1, u.jobs[id].attempts + 1;
    DelayMonotone(settings.digest(s.jobs[id].key, n), n, settings.digest(u.jobs[id].key, n'), n', settings.policy);
  }

  /** The event is not its owner's on the job, and does not come after the lease. */
  ghost predicate WithinLease(j: Job, e: Event) {
    && j.leaseExpiresAt.Some? && e.now <= j.leaseExpiresAt.value
    && match e.op
       case HeartbeatOp(id, worker) => id != j.id || Some(worker) != j.leaseOwner
       case CompleteOp(id, worker, _) => id != j.id || Some(worker) != j.leaseOwner
       case FailOp(id, worker, _, _) => id != j.id || Some(worker) != j.leaseOwner
       case _ => true
  }

  lemma ClaimLeaves(s: State, settings: Settings, worker: string, now: int, id: string)
    requires WellNamed(s) && id in s.jobs && s.jobs[id].state == Claimed && ClaimNext(s, settings, worker, now).ClaimedJob?
    ensures Untouched(s, ClaimNext(s, settings, worker, now).state, id)
  {
    ClaimMeans(s, settings, worker, now);
  }

  lemma OthersRefused(s: State, settings: Settings, other: string, worker: string, now: int, text: string, retryable: bool, id: string)
    requires ValidPolicy(settings.policy) && WellNamed(s) && id in s.jobs && s.jobs[id].state == Claimed
    requires other != id || Some(worker) != s.jobs[id].leaseOwner
    ensures Untouched(s, After(s, Heartbeat(s, settings, other, worker, now)), id)
    ensures Untouched(s, After(s, Complete(s, other, worker, now, text)), id)
    ensures Untouched(s, After(s, Fail(s, settings, other, worker, now, text, retryable)), id)
  {
  }

  lemma RecoveryWaits(s: State, now: int, id: string)
    requires id in s.jobs && s.jobs[id].leaseExpiresAt.Some? && now <= s.jobs[id].leaseExpiresAt.value
    ensures Untouched(s, RecoverExpired(s, now), id)
  {
    RecoverMeans(s, now);
  }

  lemma StepRespectsLease(s: State, settings: Settings, e: Event, id: string)
    requires ValidPolicy(settings.policy) && Invariant(s) && id in s.jobs && s.jobs[id].state == Claimed && WithinLease(s.jobs[id], e)
    ensures Untouched(s, Step(s, settings, e), id)
  {
    match e.op
    case SubmitOp(submission) => EnqueueUntouched(s, PendingJob(submission, e.now), id);
    case ClaimOp(worker) => if ClaimNext(s, settings, worker, e.now).ClaimedJob? { ClaimLeaves(s, settings, worker, e.now, id); }
    case HeartbeatOp(other, worker) => OthersRefused(s, settings, other, worker, e.now, "", false, id);
    case CompleteOp(other, worker, result) => OthersRefused(s, settings, other, worker, e.now, result, false, id);
    case FailOp(other, worker, reason, retryable) => OthersRefused(s, settings, other, worker, e.now, reason, retryable, id);
    case RecoverOp => RecoveryWaits(s, e.now, id);
    case ReplayOp(other, replayId, actor) => ReplayUntouched(s, other, replayId, actor, e.now, id);
  }

  /** While its lease lasts nobody but the owner touches a claimed job, whatever else the queue does. */
  lemma {:induction false} LeaseProtects(s: State, settings: Settings, run: seq<Event>, id: string)
    requires ValidPolicy(settings.policy) && Invariant(s) && id in s.jobs && s.jobs[id].state == Claimed
    requires forall e :: e in run ==> WithinLease(s.jobs[id], e)
    ensures Untouched(s, Exec(s, settings, run), id)
    decreases |run|
  {
    if run != [] {
      assert run[0] in run && forall e :: e in run[1..] ==> e in run;
      StepKeeps(s, settings, run[0]);
      StepRespectsLease(s, settings, run[0], id);
      LeaseProtects(Step(s, settings, run[0]), settings, run[1..], id);
    }
  }

  /** No entry of the index is lost or redirected. */
  ghost predicate KeysKept(s: State, t: State) {
    forall k :: k in s.idempotency ==> k in t.idempotency && t.idempotency[k] == s.idempotency[k]
  }

  lemma EnqueueKeysKept(s: State, job: Job)
    requires Indexed(s)
    ensures KeysKept(s, After(s, Enqueue(s, job)))
  {
  }

  lemma ClaimKeysKept(s: State, settings: Settings, worker: string, now: int)
    requires WellNamed(s) && ClaimNext(s, settings, worker, now).ClaimedJob?
    ensures KeysKept(s, ClaimNext(s, settings, worker, now).state)
  {
    ClaimMeans(s, settings, worker, now);
  }

  lemma LeaseKeysKept(s: State, settings: Settings, id: string, worker: string, now: int, text: string, retryable: bool)
    requires ValidPolicy(settings.policy)
    ensures KeysKept(s, After(s, Heartbeat(s, settings, id, worker, now)))
    ensures KeysKept(s, After(s, Complete(s, id, worker, now, text)))
    ensures KeysKept(s, After(s, Fail(s, settings, id, worker, now, text, retryable)))
  {
  }

  lemma StepKeysKept(s: State, settings: Settings, e: Event)
    requires ValidPolicy(settings.policy) && Invariant(s)
    ensures KeysKept(s, Step(s, settings, e))
  {
    match e.op
    case SubmitOp(submission) => EnqueueKeysKept(s, PendingJob(submission, e.now));
    case ClaimOp(worker) => if ClaimNext(s, settings, worker, e.now).ClaimedJob? { ClaimKeysKept(s, settings, worker, e.now); }
    case HeartbeatOp(other, worker) => LeaseKeysKept(s, settings, other, worker, e.now, "", false);
    case CompleteOp(other, worker, result) => LeaseKeysKept(s, settings, other, worker, e.now, result, false);
    case FailOp(other, worker, reason, retryable) => LeaseKeysKept(s, settings, other, worker, e.now, reason, retryable);
    case RecoverOp =>
    case ReplayOp(other, replayId, actor) => ReplayKeysKept(s, other, replayId, actor, e.now);
  }

  lemma ReplayKeysKept(s: State, id: string, replayId: string, actor: string, now: int)
    requires Invariant(s)
    ensures KeysKept(s, After(s, ReplayDeadLetter(s, id, replayId, actor, now)))
  {
    if id in s.jobs {
      EnqueueKeysKept(s, PendingJob(ReplaySubmission(s.jobs[id], replayId), now).(replayOf := Some(s.jobs[id].id),
                                                                              history := [ReplayedBy(actor, now)]));
    }
  }

  lemma {:induction false} RunKeysKept(s: State, settings: Settings, run: seq<Event>)
    requires ValidPolicy(settings.policy) && Invariant(s)
    ensures KeysKept(s, Exec(s, settings, run))
    decreases |run|
  {
    if run != [] {
      StepKeeps(s, settings, run[0]);
      StepKeysKept(s, settings, run[0]);
      RunKeysKept(Step(s, settings, run[0]), settings, run[1..]);
    }
  }

  /** Submitting once more under the same tenant, workspace and key, at any later time, gives the first job back and adds none. */
  lemma SubmittedOnce(s: State, settings: Settings, first: JobSubmission, now: int, run: seq<Event>, again: JobSubmission, now': int)
    requires ValidPolicy(settings.policy) && Invariant(s) && Submit(s, first, now).Accepted? && Acceptable(again)
    requires first.tenant == again.tenant && first.workspace == again.workspace && first.key == again.key
    requires Invariant(Submit(s, first, now).state)
    ensures var u := Exec(Submit(s, first, now).state, settings, run);
            && Invariant(u)
            && var o := Submit(u, again, now');
               && o.Accepted? && o.state == u && o.job.id == Submit(s, first, now).job.id
               && SameSubmission(Submit(s, first, now).job, o.job)
  {
    var t := Submit(s, first, now).state;
    var job := Submit(s, first, now).job;
    RunKeeps(t, settings, run);
    RunKeysKept(t, settings, run);
    assert job.id in t.jobs && t.jobs[job.id] == job && t.idempotency[IdempotencyKey(first.tenant, first.workspace, first.key)] == job.id by {
      SubmitMeans(s, first, now);
    }
    RunKept(t, settings, run, job.id);
  }
}
