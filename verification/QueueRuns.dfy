/** Safety and fairness of the durable queue over whole runs. */
module QueueRuns {
  import opened QueueModel

  // ----- Sums over finite maps -----

  ghost function Sum(w: map<string, int>): int {
    if w == map[] then 0 else
      var k :| k in w;
      w[k] + Sum(w - {k})
  }

  lemma {:induction false} SumRemove(w: map<string, int>, k: string)
    requires k in w
    ensures Sum(w) == w[k] + Sum(w - {k})
    decreases |w|
  {
    var first :| first in w && Sum(w) == w[first] + Sum(w - {first});
    if first != k {
      SumRemove(w - {first}, k);
      SumRemove(w - {k}, first);
      assert w - {first} - {k} == w - {k} - {first};
    }
  }

  lemma SumUpdate(w: map<string, int>, k: string, v: int)
    ensures Sum(w[k := v]) == Sum(w) - (if k in w then w[k] else 0) + v
  {
    SumRemove(w[k := v], k);
    if k in w {
      SumRemove(w, k);
      assert w[k := v] - {k} == w - {k};
    } else {
      assert w[k := v] - {k} == w;
    }
  }

  lemma {:induction false} SumMonotone(w: map<string, int>, v: map<string, int>)
    requires w.Keys == v.Keys && forall k :: k in w ==> w[k] <= v[k]
    ensures Sum(w) <= Sum(v)
    decreases |w|
  {
    if w != map[] {
      var k :| k in w;
      SumRemove(w, k);
      SumRemove(v, k);
      SumMonotone(w - {k}, v - {k});
    }
  }

  // ----- The invariant -----

  /** The claims recorded in a history. */
  function Claims(history: seq<HistoryEntry>): nat {
    if history == [] then 0
    else Claims(history[..|history| - 1]) + if history[|history| - 1].ClaimedBy? then 1 else 0
  }

  lemma ClaimsAppend(history: seq<HistoryEntry>, e: HistoryEntry)
    ensures Claims(history + [e]) == Claims(history) + if e.ClaimedBy? then 1 else 0
  {
    assert (history + [e])[..|history|] == history;
  }

  /** Claimed exactly with lease fields; claims are attempts plus the running or successful one; attempts are bounded. */
  ghost predicate JobInvariant(j: Job) {
    && (j.state.Claimed? <==> j.leaseOwner.Some?)
    && (j.state.Claimed? <==> j.leaseExpiresAt.Some?)
    && (j.state.Claimed? <==> j.heartbeatAt.Some?)
    && Claims(j.history) == j.attempts + (if j.state.Claimed? || j.state.Completed? then 1 else 0)
    && (if j.state.DeadLetter? then 1 <= j.attempts <= j.maxAttempts else j.attempts < j.maxAttempts)
  }

  /** The idempotency index and the job table are inverse to each other. */
  ghost predicate Indexed(s: State) {
    && (forall k :: k in s.idempotency ==> s.idempotency[k] in s.jobs && KeyOf(s.jobs[s.idempotency[k]]) == k)
    && (forall id :: id in s.jobs ==> KeyOf(s.jobs[id]) in s.idempotency && s.idempotency[KeyOf(s.jobs[id])] == id)
  }

  function ClaimWeights(jobs: map<string, Job>): map<string, int> {
    map id | id in jobs :: Claims(jobs[id].history)
  }

  function Budgets(jobs: map<string, Job>): map<string, int> {
    map id | id in jobs :: jobs[id].maxAttempts
  }

  ghost predicate JobsOk(jobs: map<string, Job>) {
    forall id {:trigger JobInvariant(jobs[id])} :: id in jobs ==> JobInvariant(jobs[id])
  }

  /** The claim counter is the number of claims recorded in all histories, and no tenant's clock runs ahead of it. */
  ghost predicate Counted(s: State) {
    && s.counter == Sum(ClaimWeights(s.jobs))
    && s.counter >= 0
    && (forall t :: t in s.lastClaim ==> s.lastClaim[t] <= s.counter)
  }

  ghost predicate Invariant(s: State) {
    WellNamed(s) && Indexed(s) && JobsOk(s.jobs) && Counted(s)
  }

  // ----- Steps -----

  datatype Op =
    | SubmitOp(submission: JobSubmission)
    | ClaimOp(worker: string)
    | HeartbeatOp(id: string, worker: string)
    | CompleteOp(id: string, worker: string, result: string)
    | FailOp(id: string, worker: string, reason: string, retryable: bool)
    | RecoverOp
    | ReplayOp(id: string, replayId: string, actor: string)

  /** An operation with the time its caller supplies. */
  datatype Event = Event(op: Op, now: int)

  /** The state after a call; a rejected call changes nothing. */
  function After(s: State, o: Outcome): State {
    if o.Accepted? then o.state else s
  }

  function Step(s: State, settings: Settings, e: Event): State
    requires ValidPolicy(settings.policy) && WellNamed(s) && Indexed(s)
  {
    match e.op
    case SubmitOp(submission) => After(s, Submit(s, submission, e.now))
    case ClaimOp(worker) => var o := ClaimNext(s, settings, worker, e.now); if o.ClaimedJob? then o.state else s
    case HeartbeatOp(id, worker) => After(s, Heartbeat(s, settings, id, worker, e.now))
    case CompleteOp(id, worker, result) => After(s, Complete(s, id, worker, e.now, result))
    case FailOp(id, worker, reason, retryable) => After(s, Fail(s, settings, id, worker, e.now, reason, retryable))
    case RecoverOp => RecoverExpired(s, e.now)
    case ReplayOp(id, replayId, actor) => After(s, ReplayDeadLetter(s, id, replayId, actor, e.now))
  }

  lemma PutJobOk(jobs: map<string, Job>, id: string, j: Job)
    requires JobsOk(jobs) && JobInvariant(j)
    ensures JobsOk(jobs[id := j])
  {
  }

  lemma PutJobIndexed(s: State, id: string, j: Job)
    requires WellNamed(s) && Indexed(s) && id in s.jobs && j.id == id && KeyOf(j) == KeyOf(s.jobs[id])
    ensures WellNamed(s.(jobs := s.jobs[id := j])) && Indexed(s.(jobs := s.jobs[id := j]))
  {
  }

  lemma PutJobCounted(s: State, id: string, j: Job)
    requires id in s.jobs
    ensures Sum(ClaimWeights(s.jobs[id := j])) == Sum(ClaimWeights(s.jobs)) - Claims(s.jobs[id].history) + Claims(j.history)
  {
    assert ClaimWeights(s.jobs[id := j]) == ClaimWeights(s.jobs)[id := Claims(j.history)];
    SumUpdate(ClaimWeights(s.jobs), id, Claims(j.history));
  }

  /** Replacing a job by a version with the same identity and claim count keeps everything else. */
  lemma ReplaceJob(s: State, id: string, j: Job)
    requires Invariant(s) && id in s.jobs && j.id == id && KeyOf(j) == KeyOf(s.jobs[id])
    requires JobInvariant(j) && Claims(j.history) == Claims(s.jobs[id].history)
    ensures Invariant(s.(jobs := s.jobs[id := j]))
  {
    PutJobOk(s.jobs, id, j);
    PutJobIndexed(s, id, j);
    PutJobCounted(s, id, j);
  }

  lemma AddJobIndexed(s: State, job: Job)
    requires WellNamed(s) && Indexed(s) && KeyOf(job) !in s.idempotency && job.id !in s.jobs
    ensures var t := s.(jobs := s.jobs[job.id := job], idempotency := s.idempotency[KeyOf(job) := job.id]);
            WellNamed(t) && Indexed(t)
  {
  }

  lemma EnqueueKeeps(s: State, job: Job)
    requires Invariant(s) && Fresh(job)
    ensures Invariant(After(s, Enqueue(s, job)))
  {
    if KeyOf(job) !in s.idempotency && job.id !in s.jobs {
      PutJobOk(s.jobs, job.id, job);
      AddJobIndexed(s, job);
      assert ClaimWeights(s.jobs[job.id := job]) == ClaimWeights(s.jobs)[job.id := 0];
      SumUpdate(ClaimWeights(s.jobs), job.id, 0);
    }
  }

  /** A job as `pending` and replay build it: consistent, and never claimed. */
  ghost predicate Fresh(job: Job) {
    JobInvariant(job) && Claims(job.history) == 0
  }

  /** Enqueueing any job keeps the invariant exactly if the job is not stored, or is fresh. */
  lemma EnqueueExactly(s: State, job: Job)
    requires Invariant(s)
    ensures Invariant(After(s, Enqueue(s, job))) <==> KeyOf(job) in s.idempotency || job.id in s.jobs || Fresh(job)
  {
    if KeyOf(job) !in s.idempotency && job.id !in s.jobs {
      if Fresh(job) {
        EnqueueKeeps(s, job);
      } else if Claims(job.history) != 0 {
        assert ClaimWeights(s.jobs[job.id := job]) == ClaimWeights(s.jobs)[job.id := Claims(job.history)];
        SumUpdate(ClaimWeights(s.jobs), job.id, Claims(job.history));
      } else {
        assert !JobInvariant(s.jobs[job.id := job][job.id]);
      }
    }
  }

  lemma ClaimedJobOk(j: Job, worker: string, now: int, policy: QueuePolicy)
    requires JobInvariant(j) && (j.state.Pending? || j.state.RetryScheduled?)
    ensures JobInvariant(ClaimedVersion(j, worker, now, policy))
    ensures Claims(ClaimedVersion(j, worker, now, policy).history) == Claims(j.history) + 1
  {
    ClaimsAppend(j.history, ClaimedBy(worker, now));
  }

  lemma ClaimCounted(s: State, id: string, j: Job, tenant: string)
    requires Counted(s) && id in s.jobs && Claims(j.history) == Claims(s.jobs[id].history) + 1
    ensures Counted(s.(jobs := s.jobs[id := j], lastClaim := s.lastClaim[tenant := s.counter + 1], counter := s.counter + 1))
  {
    PutJobCounted(s, id, j);
  }

  lemma ClaimKeeps(s: State, id: string, worker: string, now: int, policy: QueuePolicy)
    requires Invariant(s) && id in s.jobs && (s.jobs[id].state.Pending? || s.jobs[id].state.RetryScheduled?)
    ensures Invariant(ClaimSelected(s, id, worker, now, policy))
  {
    var j := ClaimedVersion(s.jobs[id], worker, now, policy);
    assert JobInvariant(s.jobs[id]);
    ClaimedJobOk(s.jobs[id], worker, now, policy);
    PutJobOk(s.jobs, id, j);
    PutJobIndexed(s, id, j);
    ClaimCounted(s, id, j, s.jobs[id].tenant);
  }

  lemma RecoveredJob(j: Job, now: int)
    requires JobInvariant(j) && Expired(j, now)
    ensures JobInvariant(RecoveredVersion(j, now)) && Claims(RecoveredVersion(j, now).history) == Claims(j.history)
  {
    ClaimsAppend(j.history, LeaseExpired(now));
  }

  lemma RecoverKeeps(s: State, now: int)
    requires Invariant(s)
    ensures Invariant(RecoverExpired(s, now))
  {
    var t := RecoverExpired(s, now);
    forall id | id in s.jobs
      ensures JobInvariant(t.jobs[id]) && Claims(t.jobs[id].history) == Claims(s.jobs[id].history)
    {
      assert JobInvariant(s.jobs[id]);
      if Expired(s.jobs[id], now) { RecoveredJob(s.jobs[id], now); }
    }
    assert ClaimWeights(t.jobs) == ClaimWeights(s.jobs);
    RecoverIndexed(s, now);
  }

  lemma RecoverIndexed(s: State, now: int)
    requires WellNamed(s) && Indexed(s)
    ensures WellNamed(RecoverExpired(s, now)) && Indexed(RecoverExpired(s, now))
  {
    var t := RecoverExpired(s, now);
    assert forall id :: id in s.jobs ==> KeyOf(t.jobs[id]) == KeyOf(s.jobs[id]) && t.jobs[id].id == s.jobs[id].id;
  }

  lemma SubmitKeeps(s: State, submission: JobSubmission, now: int)
    requires Invariant(s)
    ensures Invariant(After(s, Submit(s, submission, now)))
  {
    if ValidSubmission(submission) { EnqueueKeeps(s, PendingJob(submission, now)); }
  }

  lemma ClaimNextKeeps(s: State, settings: Settings, worker: string, now: int)
    requires Invariant(s) && ClaimNext(s, settings, worker, now).ClaimedJob?
    ensures Invariant(ClaimNext(s, settings, worker, now).state)
  {
    var id := SelectedId(s, settings, worker, now);
    ClaimKeeps(s, id, worker, now, settings.policy);
  }

  lemma HeartbeatKeeps(s: State, settings: Settings, id: string, worker: string, now: int)
    requires Invariant(s)
    ensures Invariant(After(s, Heartbeat(s, settings, id, worker, now)))
  {
    var o := Heartbeat(s, settings, id, worker, now);
    if o.Accepted? {
      assert JobInvariant(s.jobs[id]);
      ReplaceJob(s, id, o.job);
    }
  }

  lemma CompleteKeeps(s: State, id: string, worker: string, now: int, result: string)
    requires Invariant(s)
    ensures Invariant(After(s, Complete(s, id, worker, now, result)))
  {
    var o := Complete(s, id, worker, now, result);
    if o.Accepted? {
      assert JobInvariant(s.jobs[id]);
      ClaimsAppend(s.jobs[id].history, CompletedBy(worker, now));
      ReplaceJob(s, id, o.job);
    }
  }

  lemma FailKeeps(s: State, settings: Settings, id: string, worker: string, now: int, reason: string, retryable: bool)
    requires ValidPolicy(settings.policy) && Invariant(s)
    ensures Invariant(After(s, Fail(s, settings, id, worker, now, reason, retryable)))
  {
    var o := Fail(s, settings, id, worker, now, reason, retryable);
    if o.Accepted? {
      assert JobInvariant(s.jobs[id]);
      ClaimsAppend(s.jobs[id].history, FailedBy(worker, reason, now));
      ReplaceJob(s, id, o.job);
    }
  }

  lemma ReplayKeeps(s: State, id: string, replayId: string, actor: string, now: int)
    requires Invariant(s)
    ensures Invariant(After(s, ReplayDeadLetter(s, id, replayId, actor, now)))
  {
    if id in s.jobs && s.jobs[id].state.DeadLetter? {
      var submission := ReplaySubmission(s.jobs[id], replayId);
      var entry := ReplayedBy(actor, now);
      ClaimsAppend([], entry);
      assert [] + [entry] == [entry];
      if ValidSubmission(submission) {
        EnqueueKeeps(s, PendingJob(submission, now).(replayOf := Some(s.jobs[id].id), history := [entry]));
      }
    }
  }

  lemma StepKeeps(s: State, settings: Settings, e: Event)
    requires ValidPolicy(settings.policy) && Invariant(s)
    ensures Invariant(Step(s, settings, e))
  {
    match e.op
    case SubmitOp(submission) => SubmitKeeps(s, submission, e.now);
    case ClaimOp(worker) =>
      if ClaimNext(s, settings, worker, e.now).ClaimedJob? { ClaimNextKeeps(s, settings, worker, e.now); }
    case HeartbeatOp(id, worker) => HeartbeatKeeps(s, settings, id, worker, e.now);
    case CompleteOp(id, worker, result) => CompleteKeeps(s, id, worker, e.now, result);
    case FailOp(id, worker, reason, retryable) => FailKeeps(s, settings, id, worker, e.now, reason, retryable);
    case RecoverOp => RecoverKeeps(s, e.now);
    case ReplayOp(id, replayId, actor) => ReplayKeeps(s, id, replayId, actor, e.now);
  }

  /** The job a successful claim selected: first by the fair-claim key among the eligible ones. */
  lemma SelectedId(s: State, settings: Settings, worker: string, now: int) returns (id: string)
    requires WellNamed(s) && ClaimNext(s, settings, worker, now).ClaimedJob?
    ensures FirstToClaim(s, EligibleIds(s, now), id)
    ensures ClaimNext(s, settings, worker, now).state == ClaimSelected(s, id, worker, now, settings.policy)
    ensures ClaimNext(s, settings, worker, now).job == ClaimedVersion(s.jobs[id], worker, now, settings.policy)
  {
    id := FirstId(s, EligibleIds(s, now));
  }

  // ----- Runs -----

  /** The state a run of events leads to. */
  function Exec(s: State, settings: Settings, run: seq<Event>): State
    requires ValidPolicy(settings.policy) && Invariant(s)
    decreases |run|
  {
    if run == [] then s else
      StepKeeps(s, settings, run[0]);
      Exec(Step(s, settings, run[0]), settings, run[1..])
  }

  lemma {:induction false} RunKeeps(s: State, settings: Settings, run: seq<Event>)
    requires ValidPolicy(settings.policy) && Invariant(s)
    ensures Invariant(Exec(s, settings, run))
    decreases |run|
  {
    if run != [] {
      StepKeeps(s, settings, run[0]);
      RunKeeps(Step(s, settings, run[0]), settings, run[1..]);
    }
  }

  lemma EmptyInvariant()
    ensures Invariant(EMPTY)
  {
    assert ClaimWeights(EMPTY.jobs) == map[];
  }

  // ----- Claims over a run -----

  /** The job claimed by an event, if any. */
  function ClaimOf(s: State, settings: Settings, e: Event): Option<Job>
    requires WellNamed(s)
  {
    if !e.op.ClaimOp? then None
    else
      var o := ClaimNext(s, settings, e.op.worker, e.now);
      if o.ClaimedJob? then Some(o.job) else None
  }

  /** The jobs claimed in a run, in order. */
  function ClaimTrace(s: State, settings: Settings, run: seq<Event>): seq<Job>
    requires ValidPolicy(settings.policy) && Invariant(s)
    decreases |run|
  {
    if run == [] then [] else
      StepKeeps(s, settings, run[0]);
      var c := ClaimOf(s, settings, run[0]);
      (if c.Some? then [c.value] else []) + ClaimTrace(Step(s, settings, run[0]), settings, run[1..])
  }

  function TimesClaimed(trace: seq<Job>, id: string): nat {
    if trace == [] then 0 else (if trace[0].id == id then 1 else 0) + TimesClaimed(trace[1..], id)
  }

  /** The claims a job's history records. */
  function ClaimsOf(s: State, id: string): nat {
    if id in s.jobs then Claims(s.jobs[id].history) else 0
  }

  /** No job's claim count differs between two states. */
  ghost predicate SameClaims(s: State, t: State) {
    forall id :: ClaimsOf(t, id) == ClaimsOf(s, id)
  }

  lemma EnqueueClaims(s: State, job: Job)
    requires Invariant(s) && Claims(job.history) == 0
    ensures SameClaims(s, After(s, Enqueue(s, job)))
  {
  }

  lemma HeartbeatClaims(s: State, settings: Settings, id: string, worker: string, now: int)
    ensures SameClaims(s, After(s, Heartbeat(s, settings, id, worker, now)))
  {
  }

  lemma CompleteClaims(s: State, id: string, worker: string, now: int, result: string)
    ensures SameClaims(s, After(s, Complete(s, id, worker, now, result)))
  {
    if id in s.jobs { ClaimsAppend(s.jobs[id].history, CompletedBy(worker, now)); }
  }

  lemma FailClaims(s: State, settings: Settings, id: string, worker: string, now: int, reason: string, retryable: bool)
    requires ValidPolicy(settings.policy)
    ensures SameClaims(s, After(s, Fail(s, settings, id, worker, now, reason, retryable)))
  {
    if id in s.jobs { ClaimsAppend(s.jobs[id].history, FailedBy(worker, reason, now)); }
  }

  lemma RecoverClaims(s: State, now: int)
    requires Invariant(s)
    ensures SameClaims(s, RecoverExpired(s, now))
  {
    forall id | id in s.jobs && Expired(s.jobs[id], now)
      ensures Claims(RecoveredVersion(s.jobs[id], now).history) == Claims(s.jobs[id].history)
    {
      assert JobInvariant(s.jobs[id]);
      RecoveredJob(s.jobs[id], now);
    }
  }

  lemma ReplayClaims(s: State, id: string, replayId: string, actor: string, now: int)
    requires Invariant(s)
    ensures SameClaims(s, After(s, ReplayDeadLetter(s, id, replayId, actor, now)))
  {
    ClaimsAppend([], ReplayedBy(actor, now));
    assert [] + [ReplayedBy(actor, now)] == [ReplayedBy(actor, now)];
    if id in s.jobs {
      EnqueueClaims(s, PendingJob(ReplaySubmission(s.jobs[id], replayId), now).(replayOf := Some(s.jobs[id].id),
                                                                                history := [ReplayedBy(actor, now)]));
    }
  }

  lemma ClaimNextClaims(s: State, settings: Settings, worker: string, now: int, id: string)
    requires Invariant(s) && ClaimNext(s, settings, worker, now).ClaimedJob?
    ensures var o := ClaimNext(s, settings, worker, now);
            ClaimsOf(o.state, id) == ClaimsOf(s, id) + if o.job.id == id then 1 else 0
  {
    var selected := SelectedId(s, settings, worker, now);
    SelectedClaims(s, selected, worker, now, settings.policy, id);
  }

  lemma SelectedClaims(s: State, selected: string, worker: string, now: int, policy: QueuePolicy, id: string)
    requires WellNamed(s) && selected in s.jobs
    ensures ClaimsOf(ClaimSelected(s, selected, worker, now, policy), id) ==
            ClaimsOf(s, id) + if selected == id then 1 else 0
  {
    ClaimsAppend(s.jobs[selected].history, ClaimedBy(worker, now));
  }

  /** One step records exactly the claim it makes. */
  lemma StepClaims(s: State, settings: Settings, e: Event, id: string)
    requires ValidPolicy(settings.policy) && Invariant(s)
    ensures var c := ClaimOf(s, settings, e);
            ClaimsOf(Step(s, settings, e), id) == ClaimsOf(s, id) + if c.Some? && c.value.id == id then 1 else 0
  {
    match e.op
    case SubmitOp(submission) => EnqueueClaims(s, PendingJob(submission, e.now));
    case ClaimOp(worker) =>
      if ClaimNext(s, settings, worker, e.now).ClaimedJob? { ClaimNextClaims(s, settings, worker, e.now, id); }
    case HeartbeatOp(other, worker) => HeartbeatClaims(s, settings, other, worker, e.now);
    case CompleteOp(other, worker, result) => CompleteClaims(s, other, worker, e.now, result);
    case FailOp(other, worker, reason, retryable) => FailClaims(s, settings, other, worker, e.now, reason, retryable);
    case RecoverOp => RecoverClaims(s, e.now);
    case ReplayOp(other, replayId, actor) => ReplayClaims(s, other, replayId, actor, e.now);
  }

  lemma TimesClaimedPrepend(c: Option<Job>, trace: seq<Job>, id: string)
    ensures TimesClaimed((if c.Some? then [c.value] else []) + trace, id) ==
            TimesClaimed(trace, id) + if c.Some? && c.value.id == id then 1 else 0
  {
    if c.Some? { assert ([c.value] + trace)[1..] == trace; } else { assert [] + trace == trace; }
  }

  lemma {:induction false} RunClaims(s: State, settings: Settings, run: seq<Event>, id: string)
    requires ValidPolicy(settings.policy) && Invariant(s)
    ensures ClaimsOf(Exec(s, settings, run), id) == ClaimsOf(s, id) + TimesClaimed(ClaimTrace(s, settings, run), id)
    decreases |run|
  {
    if run != [] {
      StepKeeps(s, settings, run[0]);
      StepClaims(s, settings, run[0], id);
      var next := Step(s, settings, run[0]);
      RunClaims(next, settings, run[1..], id);
      TimesClaimedPrepend(ClaimOf(s, settings, run[0]), ClaimTrace(next, settings, run[1..]), id);
    }
  }

  /** In every reachable state a job has been claimed attempts times, plus one while it is claimed or once it is completed. */
  lemma ClaimAccounting(settings: Settings, run: seq<Event>, id: string)
    requires ValidPolicy(settings.policy)
    ensures Invariant(EMPTY)
    ensures var s := Exec(EMPTY, settings, run);
            var times := TimesClaimed(ClaimTrace(EMPTY, settings, run), id);
            if id !in s.jobs then times == 0
            else
              && times == s.jobs[id].attempts + (if s.jobs[id].state.Claimed? || s.jobs[id].state.Completed? then 1 else 0)
              && times <= s.jobs[id].maxAttempts
  {
    EmptyInvariant();
    RunClaims(EMPTY, settings, run, id);
    RunKeeps(EMPTY, settings, run);
    var s := Exec(EMPTY, settings, run);
    if id in s.jobs { assert JobInvariant(s.jobs[id]); }
  }

  ghost predicate SameClocks(s: State, t: State) {
    t.lastClaim == s.lastClaim && t.counter == s.counter
  }

  lemma EnqueueMovesNoClock(s: State, job: Job)
    requires Indexed(s)
    ensures SameClocks(s, After(s, Enqueue(s, job)))
  {
  }

  lemma ReplayMovesNoClock(s: State, id: string, replayId: string, actor: string, now: int)
    requires Indexed(s)
    ensures SameClocks(s, After(s, ReplayDeadLetter(s, id, replayId, actor, now)))
  {
    if id in s.jobs {
      var submission := ReplaySubmission(s.jobs[id], replayId);
      EnqueueMovesNoClock(s, PendingJob(submission, now).(replayOf := Some(s.jobs[id].id), history := [ReplayedBy(actor, now)]));
    }
  }

  lemma LeaseMovesNoClock(s: State, settings: Settings, id: string, worker: string, now: int, text: string, retryable: bool)
    requires ValidPolicy(settings.policy)
    ensures SameClocks(s, After(s, Heartbeat(s, settings, id, worker, now)))
    ensures SameClocks(s, After(s, Complete(s, id, worker, now, text)))
    ensures SameClocks(s, After(s, Fail(s, settings, id, worker, now, text, retryable)))
  {
  }

  lemma OnlyClaimsMoveClocks(s: State, settings: Settings, e: Event)
    requires ValidPolicy(settings.policy) && WellNamed(s) && Indexed(s)
    requires ClaimOf(s, settings, e).None?
    ensures SameClocks(s, Step(s, settings, e))
  {
    match e.op
    case SubmitOp(submission) => EnqueueMovesNoClock(s, PendingJob(submission, e.now));
    case ClaimOp(worker) =>
    case HeartbeatOp(id, worker) => LeaseMovesNoClock(s, settings, id, worker, e.now, "", false);
    case CompleteOp(id, worker, result) => LeaseMovesNoClock(s, settings, id, worker, e.now, result, false);
    case FailOp(id, worker, reason, retryable) => LeaseMovesNoClock(s, settings, id, worker, e.now, reason, retryable);
    case RecoverOp =>
    case ReplayOp(id, replayId, actor) => ReplayMovesNoClock(s, id, replayId, actor, e.now);
  }

  lemma StepCounter(s: State, settings: Settings, e: Event)
    requires ValidPolicy(settings.policy) && WellNamed(s) && Indexed(s)
    ensures Step(s, settings, e).counter == s.counter + if ClaimOf(s, settings, e).Some? then 1 else 0
  {
    if ClaimOf(s, settings, e).Some? {
      var id := SelectedId(s, settings, e.op.worker, e.now);
    } else {
      OnlyClaimsMoveClocks(s, settings, e);
    }
  }

  lemma {:induction false} RunCounter(s: State, settings: Settings, run: seq<Event>)
    requires ValidPolicy(settings.policy) && Invariant(s)
    ensures Exec(s, settings, run).counter == s.counter + |ClaimTrace(s, settings, run)|
    decreases |run|
  {
    if run != [] {
      StepKeeps(s, settings, run[0]);
      StepCounter(s, settings, run[0]);
      RunCounter(Step(s, settings, run[0]), settings, run[1..]);
    }
  }

  /** A run makes at most as many claims as the attempts its jobs are allowed together. */
  lemma TotalClaimsBounded(settings: Settings, run: seq<Event>)
    requires ValidPolicy(settings.policy)
    ensures Invariant(EMPTY)
    ensures |ClaimTrace(EMPTY, settings, run)| <= Sum(Budgets(Exec(EMPTY, settings, run).jobs))
  {
    EmptyInvariant();
    RunCounter(EMPTY, settings, run);
    RunKeeps(EMPTY, settings, run);
    var jobs := Exec(EMPTY, settings, run).jobs;
    forall id | id in jobs ensures ClaimWeights(jobs)[id] <= Budgets(jobs)[id] {
      assert JobInvariant(jobs[id]);
    }
    SumMonotone(ClaimWeights(jobs), Budgets(jobs));
  }

  // ----- Terminal jobs -----

  predicate Terminal(j: Job) {
    j.state.Completed? || j.state.DeadLetter?
  }

  /** The job `id` is the same in both states. */
  ghost predicate Untouched(s: State, t: State, id: string) {
    id in s.jobs && id in t.jobs && t.jobs[id] == s.jobs[id]
  }

  lemma EnqueueUntouched(s: State, job: Job, id: string)
    requires Indexed(s) && id in s.jobs
    ensures Untouched(s, After(s, Enqueue(s, job)), id)
  {
  }

  lemma ClaimUntouched(s: State, settings: Settings, worker: string, now: int, id: string)
    requires WellNamed(s) && id in s.jobs && Terminal(s.jobs[id]) && ClaimNext(s, settings, worker, now).ClaimedJob?
    ensures Untouched(s, ClaimNext(s, settings, worker, now).state, id)
  {
    var selected := SelectedId(s, settings, worker, now);
    assert selected != id;
  }

  lemma LeaseUntouched(s: State, settings: Settings, other: string, worker: string, now: int, text: string, retryable: bool, id: string)
    requires ValidPolicy(settings.policy) && id in s.jobs && Terminal(s.jobs[id])
    ensures Untouched(s, After(s, Heartbeat(s, settings, other, worker, now)), id)
    ensures Untouched(s, After(s, Complete(s, other, worker, now, text)), id)
    ensures Untouched(s, After(s, Fail(s, settings, other, worker, now, text, retryable)), id)
  {
  }

  lemma ReplayUntouched(s: State, other: string, replayId: string, actor: string, now: int, id: string)
    requires Indexed(s) && id in s.jobs
    ensures Untouched(s, After(s, ReplayDeadLetter(s, other, replayId, actor, now)), id)
  {
    if other in s.jobs {
      EnqueueUntouched(s, PendingJob(ReplaySubmission(s.jobs[other], replayId), now).(replayOf := Some(s.jobs[other].id),
                                                                                      history := [ReplayedBy(actor, now)]), id);
    }
  }

  lemma StepKeepsTerminal(s: State, settings: Settings, e: Event, id: string)
    requires ValidPolicy(settings.policy) && Invariant(s) && id in s.jobs && Terminal(s.jobs[id])
    ensures Untouched(s, Step(s, settings, e), id)
  {
    match e.op
    case SubmitOp(submission) => EnqueueUntouched(s, PendingJob(submission, e.now), id);
    case ClaimOp(worker) =>
      if ClaimNext(s, settings, worker, e.now).ClaimedJob? { ClaimUntouched(s, settings, worker, e.now, id); }
    case HeartbeatOp(other, worker) => LeaseUntouched(s, settings, other, worker, e.now, "", false, id);
    case CompleteOp(other, worker, result) => LeaseUntouched(s, settings, other, worker, e.now, result, false, id);
    case FailOp(other, worker, reason, retryable) => LeaseUntouched(s, settings, other, worker, e.now, reason, retryable, id);
    case RecoverOp =>
    case ReplayOp(other, replayId, actor) => ReplayUntouched(s, other, replayId, actor, e.now, id);
  }

  /** Completed and dead-letter jobs never change again. */
  lemma {:induction false} TerminalForever(s: State, settings: Settings, run: seq<Event>, id: string)
    requires ValidPolicy(settings.policy) && Invariant(s) && id in s.jobs && Terminal(s.jobs[id])
    ensures Untouched(s, Exec(s, settings, run), id)
    decreases |run|
  {
    if run != [] {
      StepKeeps(s, settings, run[0]);
      StepKeepsTerminal(s, settings, run[0], id);
      TerminalForever(Step(s, settings, run[0]), settings, run[1..], id);
    }
  }
}
