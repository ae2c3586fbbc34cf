/** The durable queue as the class that updates its tables in place. */
module DurableQueues {
  import opened Ordering
  import opened QueueModel
  import opened QueueRuns

  /** The jobs not in `left` have been recovered where their lease had expired. */
  ghost predicate RecoverProgress(before: map<string, Job>, jobs: map<string, Job>, left: set<string>, now: int) {
    && jobs.Keys == before.Keys && left <= before.Keys
    && forall id :: id in before ==>
                      jobs[id] == if id !in left && Expired(before[id], now) then RecoveredVersion(before[id], now) else before[id]
  }

  lemma RecoverDone(before: State, jobs: map<string, Job>, now: int)
    requires RecoverProgress(before.jobs, jobs, {}, now)
    ensures before.(jobs := jobs) == QueueModel.RecoverExpired(before, now)
  {
    assert jobs == QueueModel.RecoverExpired(before, now).jobs;
  }

  ghost predicate RecoveredIds(before: map<string, Job>, recovered: set<string>, left: set<string>, now: int) {
    forall id :: id in recovered <==> id in before && id !in left && Expired(before[id], now)
  }

  lemma RecoverOne(before: map<string, Job>, jobs: map<string, Job>, recovered: set<string>, left: set<string>, now: int, id: string)
    requires RecoverProgress(before, jobs, left, now) && RecoveredIds(before, recovered, left, now) && id in left
    ensures id in jobs && jobs[id] == before[id]
    ensures RecoverProgress(before, if Expired(jobs[id], now) then jobs[id := RecoveredVersion(jobs[id], now)] else jobs,
                            left - {id}, now)
    ensures RecoveredIds(before, if Expired(jobs[id], now) then recovered + {id} else recovered, left - {id}, now)
  {
  }

  /** The jobs whose lease had expired, in their new versions, by identifier. */
  ghost predicate AreRecovered(before: map<string, Job>, jobs: map<string, Job>, recovered: seq<Job>, now: int) {
    && ListsJobs(jobs, recovered)
    && forall id :: id in before && Expired(before[id], now) <==> exists i :: 0 <= i < |recovered| && recovered[i].id == id
  }

  /** Stored jobs in increasing order of identifier. */
  ghost predicate ListsJobs(jobs: map<string, Job>, list: seq<Job>) {
    && (forall i :: 0 <= i < |list| ==> list[i].id in jobs && list[i] == jobs[list[i].id])
    && (forall i, j :: 0 <= i < j < |list| ==> StrLess(list[i].id, list[j].id))
  }

  /** `sorted(recovered, key=lambda item: item.job_id)` */
  method SortedJobs(jobs: map<string, Job>, ids: set<string>) returns (list: seq<Job>)
    requires ids <= jobs.Keys && forall id :: id in ids ==> jobs[id].id == id
    ensures ListsJobs(jobs, list)
    ensures forall id :: id in ids <==> exists i :: 0 <= i < |list| && list[i].id == id
  {
    var order := SortedStrings(ids);
    list := [];
    for i := 0 to |order|
      invariant |list| == i
      invariant forall k :: 0 <= k < i ==> order[k] in ids && list[k] == jobs[order[k]]
    {
      assert order[i] in order;
      list := list + [jobs[order[i]]];
    }
    forall id ensures id in ids <==> exists i :: 0 <= i < |list| && list[i].id == id {
      if id in ids {
        assert id in order;
        var i :| 0 <= i < |order| && order[i] == id;
        assert list[i].id == id;
      }
    }
  }

  class DurableQueue {
    const settings: Settings
    var jobs: map<string, Job>
    var idempotency: map<IdempotencyKey, string>
    var tenantLastClaim: map<string, int>
    var claimCounter: int

    constructor (settings: Settings)
      requires ValidPolicy(settings.policy)
      ensures Valid() && View() == EMPTY && this.settings == settings
    {
      this.settings := settings;
      jobs, idempotency, tenantLastClaim, claimCounter := map[], map[], map[], 0;
      new;
      EmptyInvariant();
    }

    function View(): State
      reads this
    {
      State(jobs, idempotency, tenantLastClaim, claimCounter)
    }

    ghost predicate Valid()
      reads this
    {
      ValidPolicy(settings.policy) && Invariant(View())
    }

    method Enqueue(job: Job) returns (o: Outcome)
      requires Valid()
      modifies this
      ensures o == QueueModel.Enqueue(old(View()), job) && View() == After(old(View()), o)
      ensures Valid() <==> KeyOf(job) in old(idempotency) || job.id in old(jobs) || Fresh(job)
    {
      EnqueueExactly(View(), job);
      if KeyOf(job) in idempotency {
        o := Accepted(View(), jobs[idempotency[KeyOf(job)]]);
      } else if job.id in jobs {
        o := Rejected(DuplicateJobId);
      } else {
        jobs := jobs[job.id := job];
        idempotency := idempotency[KeyOf(job) := job.id];
        o := Accepted(View(), job);
      }
    }

    method ClaimNext(worker: string, now: int) returns (o: ClaimOutcome)
      requires Valid()
      modifies this
      ensures Valid() && o == QueueModel.ClaimNext(old(View()), settings, worker, now)
      ensures View() == if o.ClaimedJob? then o.state else old(View())
    {
      if Blank(worker) {
        return ClaimRejected(WorkerRequired);
      }
      var eligible := EligibleIds(View(), now);
      if eligible == {} {
        return NothingEligible;
      }
      ClaimNextKeeps(View(), settings, worker, now);
      var claimed := Claim(jobs[FirstId(View(), eligible)], worker, now);
      o := ClaimedJob(View(), claimed);
    }

    /** Count the claim, set the tenant's clock, and store the claimed version. */
    method Claim(selected: Job, worker: string, now: int) returns (claimed: Job)
      requires selected.id in jobs && jobs[selected.id] == selected
      modifies `jobs, `tenantLastClaim, `claimCounter
      ensures View() == ClaimSelected(old(View()), selected.id, worker, now, settings.policy)
      ensures claimed == ClaimedVersion(selected, worker, now, settings.policy)
    {
      claimCounter := claimCounter + 1;
      tenantLastClaim := tenantLastClaim[selected.tenant := claimCounter];
      claimed := ClaimedVersion(selected, worker, now, settings.policy);
      jobs := jobs[selected.id := claimed];
    }

    method Heartbeat(id: string, worker: string, now: int) returns (o: Outcome)
      requires Valid()
      modifies this`jobs
      ensures Valid() && o == QueueModel.Heartbeat(old(View()), settings, id, worker, now) && View() == After(old(View()), o)
    {
      HeartbeatKeeps(View(), settings, id, worker, now);
      var error := OwnedClaim(id, worker, now);
      if error.Some? {
        return Rejected(error.value);
      }
      var updated := jobs[id].(leaseExpiresAt := Some(now + settings.policy.leaseDuration), heartbeatAt := Some(now));
      jobs := jobs[id := updated];
      o := Accepted(View(), updated);
    }

    method Complete(id: string, worker: string, now: int, result: string) returns (o: Outcome)
      requires Valid()
      modifies this`jobs
      ensures Valid() && o == QueueModel.Complete(old(View()), id, worker, now, result) && View() == After(old(View()), o)
    {
      CompleteKeeps(View(), id, worker, now, result);
      var error := OwnedClaim(id, worker, now);
      if error.Some? {
        return Rejected(error.value);
      }
      var current := jobs[id];
      var updated := Released(current).(state := Completed, completedAt := Some(now), result := Some(result),
                                        history := current.history + [CompletedBy(worker, now)]);
      jobs := jobs[id := updated];
      o := Accepted(View(), updated);
    }

    method Fail(id: string, worker: string, now: int, reason: string, retryable: bool) returns (o: Outcome)
      requires Valid()
      modifies this`jobs
      ensures Valid() && o == QueueModel.Fail(old(View()), settings, id, worker, now, reason, retryable)
      ensures View() == After(old(View()), o)
    {
      ghost var goal := After(View(), QueueModel.Fail(View(), settings, id, worker, now, reason, retryable));
      assert Invariant(goal) by { FailKeeps(View(), settings, id, worker, now, reason, retryable); }
      if Blank(reason) {
        return Rejected(ReasonRequired);
      }
      var error := OwnedClaim(id, worker, now);
      if error.Some? {
        return Rejected(error.value);
      }
      var updated := VersionAfterFailure(jobs[id], worker, now, reason, retryable);
      jobs := jobs[id := updated];
      o := Accepted(View(), updated);
      assert View() == goal;
    }

    /** Retry after a delay, or the dead letters when the failure is final or the attempts are used up. */
    method VersionAfterFailure(current: Job, worker: string, now: int, reason: string, retryable: bool) returns (updated: Job)
      requires ValidPolicy(settings.policy)
      ensures updated == FailedVersion(current, settings, worker, now, reason, retryable)
    {
      var attempts := current.attempts + 1;
      var failed := FailedAttempt(current, worker, now, reason);
      if !retryable || attempts >= current.maxAttempts {
        updated := failed.(state := DeadLetter, deadLetterReason := Some(reason));
      } else {
        var delay := RetryDelay(settings.digest(current.key, attempts), attempts, settings.policy);
        updated := failed.(state := RetryScheduled, nextAttemptAt := now + delay.value);
      }
    }

    method RecoverExpired(now: int) returns (recovered: seq<Job>)
      requires Valid()
      modifies this`jobs
      ensures Valid() && View() == QueueModel.RecoverExpired(old(View()), now)
      ensures AreRecovered(old(jobs), jobs, recovered, now)
    {
      RecoverKeeps(View(), now);
      var ids := RecoverEach(now);
      recovered := SortedJobs(jobs, ids);
    }

    /** One job at a time: expired leases go back to pending or, out of attempts, to the dead letters. */
    method RecoverEach(now: int) returns (ids: set<string>)
      modifies this`jobs
      ensures View() == QueueModel.RecoverExpired(old(View()), now) && RecoveredIds(old(jobs), ids, {}, now)
    {
      ghost var before := View();
      ids := {};
      var left := jobs.Keys;
      while left != {}
        invariant RecoverProgress(before.jobs, jobs, left, now)
        invariant RecoveredIds(before.jobs, ids, left, now)
        decreases left
      {
        var id :| id in left;
        RecoverOne(before.jobs, jobs, ids, left, now, id);
        left := left - {id};
        if Expired(jobs[id], now) {
          jobs := jobs[id := RecoveredVersion(jobs[id], now)];
          ids := ids + {id};
        }
      }
      RecoverDone(before, jobs, now);
      assert View() == before.(jobs := jobs);
    }

    method ReplayDeadLetter(id: string, replayId: string, actor: string, now: int) returns (o: Outcome)
      requires Valid()
      modifies this
      ensures Valid() && o == QueueModel.ReplayDeadLetter(old(View()), id, replayId, actor, now)
      ensures View() == After(old(View()), o)
    {
      if id !in jobs {
        return Rejected(UnknownJob);
      }
      var original := jobs[id];
      if !original.state.DeadLetter? {
        return Rejected(NotDeadLetter);
      }
      if Blank(actor) {
        return Rejected(AuthorizerRequired);
      }
      var submission := ReplaySubmission(original, replayId);
      if !ValidSubmission(submission) {
        return Rejected(InvalidSubmission);
      }
      var replay := PendingJob(submission, now).(replayOf := Some(original.id), history := [ReplayedBy(actor, now)]);
      ClaimsAppend([], ReplayedBy(actor, now));
      assert [] + [ReplayedBy(actor, now)] == [ReplayedBy(actor, now)];
      o := Enqueue(replay);
    }

    /** `_owned_claim` */
    method OwnedClaim(id: string, worker: string, now: int) returns (error: Option<QueueError>)
      ensures error == OwnedClaimError(View(), id, worker, now)
    {
      if id !in jobs {
        return Some(UnknownJob);
      }
      var current := jobs[id];
      if !current.state.Claimed? || current.leaseOwner != Some(worker) || current.leaseExpiresAt.None? || current.leaseExpiresAt.value < now {
        return Some(NotOwner);
      }
      error := None;
    }
  }
}
