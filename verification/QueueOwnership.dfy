/** Lease ownership over whole runs: an attempt is only ever ended by the worker whose claim started it. */
module QueueOwnership {
  import opened QueueModel
  import opened QueueRuns

  /** The worker whose claim is open at the end of a history. */
  function Owner(history: seq<HistoryEntry>): Option<string> {
    if history != [] && history[|history| - 1].ClaimedBy? then Some(history[|history| - 1].worker) else None
  }

  /** Whether an entry may follow: claims open when none is open; completions and failures close the worker's own claim. */
  predicate MayFollow(history: seq<HistoryEntry>, e: HistoryEntry) {
    match e
    case ClaimedBy(_, _) => Owner(history).None?
    case CompletedBy(worker, _) => Owner(history) == Some(worker)
    case FailedBy(worker, _, _) => Owner(history) == Some(worker)
    case LeaseExpired(_) => Owner(history).Some?
    case ReplayedBy(_, _) => history == []
  }

  ghost predicate Orderly(history: seq<HistoryEntry>) {
    history == [] || (
      var k := |history| - 1;
      Orderly(history[..k]) && MayFollow(history[..k], history[k]))
  }

  /** A claimed job's open claim is its lease owner's; a job that waits or is completed has no open claim. */
  ghost predicate OwnedJob(j: Job) {
    && Orderly(j.history)
    && (j.state.Claimed? ==> Owner(j.history) == j.leaseOwner)
    && (j.state.Pending? || j.state.RetryScheduled? ==> Owner(j.history).None?)
    && (j.state.Completed? ==> j.history != [] && j.history[|j.history| - 1].CompletedBy?)
  }

  ghost predicate AllOwned(jobs: map<string, Job>) {
    forall id {:trigger OwnedJob(jobs[id])} :: id in jobs ==> OwnedJob(jobs[id])
  }

  lemma OrderlyAppend(history: seq<HistoryEntry>, e: HistoryEntry)
    requires Orderly(history) && MayFollow(history, e)
    ensures Orderly(history + [e]) && Owner(history + [e]) == if e.ClaimedBy? then Some(e.worker) else None
  {
    assert (history + [e])[..|history|] == history;
  }

  /** Every ended attempt was opened, by the entry just before, by the worker that ended it. */
  lemma {:induction false} EndsOwnClaim(history: seq<HistoryEntry>, i: nat)
    requires Orderly(history) && i < |history|
    ensures history[i].CompletedBy? || history[i].FailedBy? ==>
              i > 0 && history[i - 1].ClaimedBy? && history[i - 1].worker == history[i].worker
    ensures history[i].LeaseExpired? ==> i > 0 && history[i - 1].ClaimedBy?
    ensures history[i].ClaimedBy? && i > 0 ==> !history[i - 1].ClaimedBy?
    decreases |history|
  {
    var k := |history| - 1;
    if i < k {
      EndsOwnClaim(history[..k], i);
    }
  }

  // ----- One operation -----

  lemma PutOwned(jobs: map<string, Job>, id: string, j: Job)
    requires AllOwned(jobs) && OwnedJob(j)
    ensures AllOwned(jobs[id := j])
  {
  }

  lemma FreshOwned(s: State, job: Job)
    requires Invariant(s) && AllOwned(s.jobs) && OwnedJob(job)
    ensures AllOwned(After(s, Enqueue(s, job)).jobs)
  {
    PutOwned(s.jobs, job.id, job);
  }

  lemma ClaimOwned(s: State, id: string, worker: string, now: int, policy: QueuePolicy)
    requires AllOwned(s.jobs) && id in s.jobs && (s.jobs[id].state.Pending? || s.jobs[id].state.RetryScheduled?)
    ensures AllOwned(ClaimSelected(s, id, worker, now, policy).jobs)
  {
    assert OwnedJob(s.jobs[id]);
    OrderlyAppend(s.jobs[id].history, ClaimedBy(worker, now));
    PutOwned(s.jobs, id, ClaimedVersion(s.jobs[id], worker, now, policy));
  }

  lemma HeartbeatOwned(s: State, settings: Settings, id: string, worker: string, now: int)
    requires AllOwned(s.jobs)
    ensures AllOwned(After(s, Heartbeat(s, settings, id, worker, now)).jobs)
  {
    var o := Heartbeat(s, settings, id, worker, now);
    if o.Accepted? {
      assert OwnedJob(s.jobs[id]);
      PutOwned(s.jobs, id, o.job);
    }
  }

  lemma CompleteOwned(s: State, id: string, worker: string, now: int, result: string)
    requires AllOwned(s.jobs)
    ensures AllOwned(After(s, Complete(s, id, worker, now, result)).jobs)
  {
    var o := Complete(s, id, worker, now, result);
    if o.Accepted? {
      assert OwnedJob(s.jobs[id]);
      OrderlyAppend(s.jobs[id].history, CompletedBy(worker, now));
      PutOwned(s.jobs, id, o.job);
    }
  }

  lemma FailOwned(s: State, settings: Settings, id: string, worker: string, now: int, reason: string, retryable: bool)
    requires ValidPolicy(settings.policy) && AllOwned(s.jobs)
    ensures AllOwned(After(s, Fail(s, settings, id, worker, now, reason, retryable)).jobs)
  {
    var o := Fail(s, settings, id, worker, now, reason, retryable);
    if o.Accepted? {
      assert OwnedJob(s.jobs[id]);
      OrderlyAppend(s.jobs[id].history, FailedBy(worker, reason, now));
      PutOwned(s.jobs, id, o.job);
    }
  }

  lemma RecoveredOwned(j: Job, now: int)
    requires JobInvariant(j) && OwnedJob(j) && Expired(j, now)
    ensures OwnedJob(RecoveredVersion(j, now))
  {
    OrderlyAppend(j.history, LeaseExpired(now));
  }

  lemma RecoverOwned(s: State, now: int)
    requires JobsOk(s.jobs) && AllOwned(s.jobs)
    ensures AllOwned(RecoverExpired(s, now).jobs)
  {
    var t := RecoverExpired(s, now);
    forall id | id in s.jobs ensures OwnedJob(t.jobs[id]) {
      assert OwnedJob(s.jobs[id]) && JobInvariant(s.jobs[id]);
      if Expired(s.jobs[id], now) { RecoveredOwned(s.jobs[id], now); }
    }
  }

  lemma ReplayOwned(s: State, id: string, replayId: string, actor: string, now: int)
    requires Invariant(s) && AllOwned(s.jobs)
    ensures AllOwned(After(s, ReplayDeadLetter(s, id, replayId, actor, now)).jobs)
  {
    if id in s.jobs && s.jobs[id].state.DeadLetter? {
      var submission := ReplaySubmission(s.jobs[id], replayId);
      var entry := ReplayedBy(actor, now);
      OrderlyAppend([], entry);
      assert [] + [entry] == [entry];
      FreshOwned(s, PendingJob(submission, now).(replayOf := Some(s.jobs[id].id), history := [entry]));
    }
  }

  lemma ClaimNextOwned(s: State, settings: Settings, worker: string, now: int)
    requires Invariant(s) && AllOwned(s.jobs) && ClaimNext(s, settings, worker, now).ClaimedJob?
    ensures AllOwned(ClaimNext(s, settings, worker, now).state.jobs)
  {
    var id := SelectedId(s, settings, worker, now);
    ClaimOwned(s, id, worker, now, settings.policy);
  }

  /** Every operation keeps ownership. */
  lemma StepOwned(s: State, settings: Settings, e: Event)
    requires ValidPolicy(settings.policy) && Invariant(s) && AllOwned(s.jobs)
    ensures AllOwned(Step(s, settings, e).jobs)
  {
    match e.op
    case SubmitOp(submission) => FreshOwned(s, PendingJob(submission, e.now));
    case ClaimOp(worker) =>
      if ClaimNext(s, settings, worker, e.now).ClaimedJob? { ClaimNextOwned(s, settings, worker, e.now); }
    case HeartbeatOp(id, worker) => HeartbeatOwned(s, settings, id, worker, e.now);
    case CompleteOp(id, worker, result) => CompleteOwned(s, id, worker, e.now, result);
    case FailOp(id, worker, reason, retryable) => FailOwned(s, settings, id, worker, e.now, reason, retryable);
    case RecoverOp => RecoverOwned(s, e.now);
    case ReplayOp(id, replayId, actor) => ReplayOwned(s, id, replayId, actor, e.now);
  }

  // ----- Runs -----

  lemma {:induction false} RunOwned(s: State, settings: Settings, run: seq<Event>)
    requires ValidPolicy(settings.policy) && Invariant(s) && AllOwned(s.jobs)
    ensures AllOwned(Exec(s, settings, run).jobs)
    decreases |run|
  {
    if run != [] {
      StepKeeps(s, settings, run[0]);
      StepOwned(s, settings, run[0]);
      RunOwned(Step(s, settings, run[0]), settings, run[1..]);
    }
  }

  /**
   * In every reachable state: a claimed job was claimed last by its lease owner; every completion and failure closes the
   * claim just before it, made by the same worker; no claim is made while another is open.
   */
  lemma OwnershipOverRuns(settings: Settings, run: seq<Event>, id: string, i: nat)
    requires ValidPolicy(settings.policy)
    ensures Invariant(EMPTY)
    ensures var s := Exec(EMPTY, settings, run);
            id in s.jobs ==>
              var j := s.jobs[id];
              && (j.state.Claimed? ==> Owner(j.history) == j.leaseOwner && j.leaseOwner.Some?)
              && (i < |j.history| && (j.history[i].CompletedBy? || j.history[i].FailedBy?) ==>
                    i > 0 && j.history[i - 1].ClaimedBy? && j.history[i - 1].worker == j.history[i].worker)
              && (i < |j.history| && j.history[i].ClaimedBy? && i > 0 ==> !j.history[i - 1].ClaimedBy?)
  {
    EmptyInvariant();
    RunOwned(EMPTY, settings, run);
    RunKeeps(EMPTY, settings, run);
    var s := Exec(EMPTY, settings, run);
    if id in s.jobs {
      assert OwnedJob(s.jobs[id]) && JobInvariant(s.jobs[id]);
      if i < |s.jobs[id].history| { EndsOwnClaim(s.jobs[id].history, i); }
    }
  }

  /** Once an expired lease has been recovered, its former owner can neither extend, complete nor fail the job. */
  lemma StaleOwnerRefused(s: State, settings: Settings, id: string, worker: string, recovered: int, now: int, text: string, retryable: bool)
    requires ValidPolicy(settings.policy) && id in s.jobs && Expired(s.jobs[id], recovered)
    ensures var t := RecoverExpired(s, recovered);
            && Heartbeat(t, settings, id, worker, now).Rejected?
            && Complete(t, id, worker, now, text).Rejected?
            && Fail(t, settings, id, worker, now, text, retryable).Rejected?
  {
  }
}
