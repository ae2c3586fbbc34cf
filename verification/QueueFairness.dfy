/** Bounded bypass: while a tenant waits with an eligible job, no other tenant is served twice. */
module QueueFairness {
  import opened Ordering
  import opened QueueModel
  import opened QueueRuns

  ghost predicate HasEligible(s: State, tenant: string, now: int) {
    exists id :: id in EligibleIds(s, now) && s.jobs[id].tenant == tenant
  }

  /** At every claim of the run the tenant has an eligible job, and another tenant is served. */
  ghost predicate KeepsWaiting(s: State, settings: Settings, run: seq<Event>, tenant: string)
    requires ValidPolicy(settings.policy) && Invariant(s)
    decreases |run|
  {
    run == [] || (
      StepKeeps(s, settings, run[0]);
      var c := ClaimOf(s, settings, run[0]);
      && (c.Some? ==> HasEligible(s, tenant, run[0].now) && c.value.tenant != tenant)
      && KeepsWaiting(Step(s, settings, run[0]), settings, run[1..], tenant))
  }

  function Tenants(trace: seq<Job>): seq<string> {
    seq(|trace|, i requires 0 <= i < |trace| => trace[i].tenant)
  }

  function TenantsOf(s: State): set<string> {
    set id | id in s.jobs :: s.jobs[id].tenant
  }

  // ----- One step -----

  /** What a step does to the tenants' clocks: only the served tenant's clock moves, past all others. */
  lemma StepClock(s: State, settings: Settings, e: Event, tenant: string)
    requires ValidPolicy(settings.policy) && Invariant(s)
    ensures var c := ClaimOf(s, settings, e);
            LastClaim(Step(s, settings, e), tenant) ==
            if c.Some? && c.value.tenant == tenant then s.counter + 1 else LastClaim(s, tenant)
  {
    if ClaimOf(s, settings, e).Some? {
      var id := SelectedId(s, settings, e.op.worker, e.now);
    } else {
      OnlyClaimsMoveClocks(s, settings, e);
    }
  }

  /** A served tenant's clock was no later than that of any tenant with an eligible job. */
  lemma ServedIsEarliest(s: State, settings: Settings, e: Event, tenant: string)
    requires ValidPolicy(settings.policy) && Invariant(s)
    requires ClaimOf(s, settings, e).Some? && HasEligible(s, tenant, e.now)
    ensures LastClaim(s, ClaimOf(s, settings, e).value.tenant) <= LastClaim(s, tenant)
  {
    var id := SelectedId(s, settings, e.op.worker, e.now);
    var waiting :| waiting in EligibleIds(s, e.now) && s.jobs[waiting].tenant == tenant;
    assert waiting == id || ClaimsBefore(s, s.jobs[id], s.jobs[waiting]);
  }

  ghost predicate TenantKept(s: State, t: State, id: string) {
    id in s.jobs && id in t.jobs && t.jobs[id].tenant == s.jobs[id].tenant
  }

  lemma EnqueueTenant(s: State, job: Job, id: string)
    requires Indexed(s) && id in s.jobs
    ensures TenantKept(s, After(s, Enqueue(s, job)), id)
  {
  }

  lemma ReplayTenant(s: State, other: string, replayId: string, actor: string, now: int, id: string)
    requires Indexed(s) && id in s.jobs
    ensures TenantKept(s, After(s, ReplayDeadLetter(s, other, replayId, actor, now)), id)
  {
    ReplayUntouched(s, other, replayId, actor, now, id);
  }

  lemma LeaseTenant(s: State, settings: Settings, other: string, worker: string, now: int, text: string, retryable: bool, id: string)
    requires ValidPolicy(settings.policy) && id in s.jobs
    ensures TenantKept(s, After(s, Heartbeat(s, settings, other, worker, now)), id)
    ensures TenantKept(s, After(s, Complete(s, other, worker, now, text)), id)
    ensures TenantKept(s, After(s, Fail(s, settings, other, worker, now, text, retryable)), id)
  {
  }

  lemma ClaimTenant(s: State, settings: Settings, worker: string, now: int, id: string)
    requires WellNamed(s) && id in s.jobs && ClaimNext(s, settings, worker, now).ClaimedJob?
    ensures TenantKept(s, ClaimNext(s, settings, worker, now).state, id)
  {
    var selected := SelectedId(s, settings, worker, now);
  }

  lemma RecoverTenant(s: State, now: int, id: string)
    requires id in s.jobs
    ensures TenantKept(s, RecoverExpired(s, now), id)
  {
  }

  /** Jobs stay in the table under their tenant. */
  lemma StepTenant(s: State, settings: Settings, e: Event, id: string)
    requires ValidPolicy(settings.policy) && Invariant(s) && id in s.jobs
    ensures TenantKept(s, Step(s, settings, e), id)
  {
    match e.op
    case SubmitOp(submission) => EnqueueTenant(s, PendingJob(submission, e.now), id);
    case ClaimOp(worker) =>
      if ClaimNext(s, settings, worker, e.now).ClaimedJob? { ClaimTenant(s, settings, worker, e.now, id); }
    case HeartbeatOp(other, worker) => LeaseTenant(s, settings, other, worker, e.now, "", false, id);
    case CompleteOp(other, worker, result) => LeaseTenant(s, settings, other, worker, e.now, result, false, id);
    case FailOp(other, worker, reason, retryable) => LeaseTenant(s, settings, other, worker, e.now, reason, retryable, id);
    case RecoverOp => RecoverTenant(s, e.now, id);
    case ReplayOp(other, replayId, actor) => ReplayTenant(s, other, replayId, actor, e.now, id);
  }

  lemma ServedTenantKnown(s: State, settings: Settings, e: Event)
    requires ValidPolicy(settings.policy) && Invariant(s) && ClaimOf(s, settings, e).Some?
    ensures ClaimOf(s, settings, e).value.tenant in TenantsOf(s)
  {
    var id := SelectedId(s, settings, e.op.worker, e.now);
  }

  // ----- Whole runs -----

  lemma {:induction false} TenantsGrow(s: State, settings: Settings, run: seq<Event>)
    requires ValidPolicy(settings.policy) && Invariant(s)
    ensures TenantsOf(s) <= TenantsOf(Exec(s, settings, run))
    decreases |run|
  {
    if run != [] {
      StepKeeps(s, settings, run[0]);
      var t := Step(s, settings, run[0]);
      forall tenant | tenant in TenantsOf(s) ensures tenant in TenantsOf(t) {
        var id :| id in s.jobs && s.jobs[id].tenant == tenant;
        StepTenant(s, settings, run[0], id);
      }
      TenantsGrow(t, settings, run[1..]);
    }
  }

  /** A tenant whose clock is ahead of a waiting tenant's is not served while the other waits. */
  lemma {:induction false} NotServedAgain(s: State, settings: Settings, run: seq<Event>, tenant: string, other: string)
    requires ValidPolicy(settings.policy) && Invariant(s) && KeepsWaiting(s, settings, run, tenant)
    requires LastClaim(s, other) > LastClaim(s, tenant)
    ensures other !in Tenants(ClaimTrace(s, settings, run))
    decreases |run|
  {
    if run != [] {
      StepKeeps(s, settings, run[0]);
      var c := ClaimOf(s, settings, run[0]);
      StepClock(s, settings, run[0], tenant);
      StepClock(s, settings, run[0], other);
      if c.Some? { ServedIsEarliest(s, settings, run[0], tenant); }
      NotServedAgain(Step(s, settings, run[0]), settings, run[1..], tenant, other);
      TraceTenants(s, settings, run);
    }
  }

  lemma TenantsPrepend(c: Option<Job>, rest: seq<Job>)
    ensures Tenants((if c.Some? then [c.value] else []) + rest) == (if c.Some? then [c.value.tenant] else []) + Tenants(rest)
  {
  }

  /** The tenants served in a run: the first step's, if any, then the rest's. */
  lemma TraceTenants(s: State, settings: Settings, run: seq<Event>)
    requires ValidPolicy(settings.policy) && Invariant(s) && run != []
    ensures Invariant(Step(s, settings, run[0]))
    ensures var c := ClaimOf(s, settings, run[0]);
            Tenants(ClaimTrace(s, settings, run)) ==
            (if c.Some? then [c.value.tenant] else []) + Tenants(ClaimTrace(Step(s, settings, run[0]), settings, run[1..]))
  {
    StepKeeps(s, settings, run[0]);
    TenantsPrepend(ClaimOf(s, settings, run[0]), ClaimTrace(Step(s, settings, run[0]), settings, run[1..]));
  }

  /** From any reachable state, whoever overtakes a waiting tenant does so at most once. */
  lemma {:induction false} BoundedBypass(s: State, settings: Settings, run: seq<Event>, tenant: string)
    requires ValidPolicy(settings.policy) && Invariant(s) && KeepsWaiting(s, settings, run, tenant)
    ensures Distinct(Tenants(ClaimTrace(s, settings, run)))
    ensures Elements(Tenants(ClaimTrace(s, settings, run))) <= TenantsOf(Exec(s, settings, run)) - {tenant}
    decreases |run|
  {
    if run != [] {
      StepKeeps(s, settings, run[0]);
      var c, t := ClaimOf(s, settings, run[0]), Step(s, settings, run[0]);
      BoundedBypass(t, settings, run[1..], tenant);
      TraceTenants(s, settings, run);
      if c.Some? {
        StepClock(s, settings, run[0], tenant);
        StepClock(s, settings, run[0], c.value.tenant);
        NotServedAgain(t, settings, run[1..], tenant, c.value.tenant);
        ServedTenantKnown(s, settings, run[0]);
        TenantsGrow(s, settings, run);
      }
    }
  }

  /** With k tenants in the table at the end, a waiting tenant is overtaken at most k - 1 times. */
  lemma WaitIsBounded(s: State, settings: Settings, run: seq<Event>, tenant: string)
    requires ValidPolicy(settings.policy) && Invariant(s) && KeepsWaiting(s, settings, run, tenant)
    requires tenant in TenantsOf(s)
    ensures |ClaimTrace(s, settings, run)| <= |TenantsOf(Exec(s, settings, run))| - 1
  {
    BoundedBypass(s, settings, run, tenant);
    var served := Tenants(ClaimTrace(s, settings, run));
    DistinctCount(served);
    TenantsGrow(s, settings, run);
    SubsetSize(Elements(served), TenantsOf(Exec(s, settings, run)) - {tenant});
  }
}
