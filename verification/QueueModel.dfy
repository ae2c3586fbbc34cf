/** The durable queue's jobs and transitions, as functions on its state. */
module QueueModel {
  import opened Ordering

  datatype Option<+T> = None | Some(value: T)

  datatype JobState = Pending | Claimed | Completed | RetryScheduled | DeadLetter

  datatype HistoryEntry =
    | ClaimedBy(worker: string, at: int)
    | CompletedBy(worker: string, at: int)
    | FailedBy(worker: string, reason: string, at: int)
    | LeaseExpired(at: int)
    | ReplayedBy(actor: string, at: int)

  datatype QueuePolicy = QueuePolicy(leaseDuration: int, baseRetrySeconds: int, maxRetrySeconds: int)

  predicate ValidPolicy(p: QueuePolicy) {
    p.leaseDuration > 0 && p.baseRetrySeconds >= 1 && p.maxRetrySeconds >= p.baseRetrySeconds
  }

  /** Policy, and the first digest bytes of an idempotency key and an attempt number. */
  datatype Settings = Settings(policy: QueuePolicy, digest: (string, int) -> nat)

  datatype JobSubmission = JobSubmission(tenant: string, workspace: string, id: string, jobType: string,
                                         key: string, payload: string, maxAttempts: int)

  predicate ValidSubmission(s: JobSubmission) {
    && !Blank(s.tenant) && !Blank(s.workspace) && !Blank(s.id) && !Blank(s.jobType) && !Blank(s.key)
    && s.maxAttempts >= 1
  }

  datatype Job = Job(tenant: string, workspace: string, id: string, jobType: string, key: string, payload: string,
                     state: JobState, attempts: nat, maxAttempts: int, nextAttemptAt: int, createdAt: int,
                     leaseOwner: Option<string>, leaseExpiresAt: Option<int>, heartbeatAt: Option<int>,
                     completedAt: Option<int>, result: Option<string>, deadLetterReason: Option<string>,
                     replayOf: Option<string>, history: seq<HistoryEntry>)

  function PendingJob(s: JobSubmission, now: int): Job {
    Job(s.tenant, s.workspace, s.id, s.jobType, s.key, s.payload, Pending, 0, s.maxAttempts, now, now,
        None, None, None, None, None, None, None, [])
  }

  datatype IdempotencyKey = IdempotencyKey(tenant: string, workspace: string, key: string)

  function KeyOf(j: Job): IdempotencyKey {
    IdempotencyKey(j.tenant, j.workspace, j.key)
  }

  datatype State = State(jobs: map<string, Job>, idempotency: map<IdempotencyKey, string>,
                         lastClaim: map<string, int>, counter: int)

  const EMPTY := State(map[], map[], map[], 0)

  datatype QueueError =
    | InvalidSubmission
    | DuplicateJobId
    | WorkerRequired
    | ReasonRequired
    | UnknownJob
    | NotOwner
    | NotDeadLetter
    | AuthorizerRequired

  datatype Outcome = Accepted(state: State, job: Job) | Rejected(error: QueueError)

  datatype ClaimOutcome = ClaimedJob(state: State, job: Job) | NothingEligible | ClaimRejected(error: QueueError)

  // ----- Retry delay -----

  function Min(a: int, b: int): int {
    if a < b then a else b
  }

  /** `base * 2 ** n` */
  function Doubled(base: int, n: nat): int {
    if n == 0 then base else 2 * Doubled(base, n - 1)
  }

  function Jitter(digest: nat, exponential: int): (jitter: int)
    requires exponential >= 1
    ensures 0 <= jitter <= exponential
  {
    var ceiling := if exponential / 4 > 1 then exponential / 4 else 1;
    digest % (ceiling + 1)
  }

  /** None stands for the error on a non-positive attempt number. */
  function RetryDelay(digest: nat, attempt: int, policy: QueuePolicy): Option<int>
    requires ValidPolicy(policy)
  {
    if attempt < 1 then None
    else
      DoubledGrows(policy.baseRetrySeconds, attempt - 1);
      var exponential := Min(policy.maxRetrySeconds, Doubled(policy.baseRetrySeconds, attempt - 1));
      Some(Min(policy.maxRetrySeconds, exponential + Jitter(digest, exponential)))
  }

  lemma {:induction false} DoubledGrows(base: int, n: nat)
    requires base >= 1
    ensures Doubled(base, n) >= base
  {
    if n > 0 { DoubledGrows(base, n - 1); }
  }

  /** Every delay lies between base and maximum, and no later attempt waits less, whatever the digests are. */
  lemma RetryDelayMonotone(digest: nat, digest': nat, attempt: int, policy: QueuePolicy)
    requires ValidPolicy(policy) && attempt >= 1
    ensures RetryDelay(digest, attempt, policy).Some? && RetryDelay(digest', attempt + 1, policy).Some?
    ensures policy.baseRetrySeconds <= RetryDelay(digest, attempt, policy).value <= policy.maxRetrySeconds
    ensures RetryDelay(digest, attempt, policy).value <= RetryDelay(digest', attempt + 1, policy).value
  {
    DoubledGrows(policy.baseRetrySeconds, attempt - 1);
    assert Doubled(policy.baseRetrySeconds, attempt) == 2 * Doubled(policy.baseRetrySeconds, attempt - 1);
  }

  // ----- Enqueue -----

  function Enqueue(s: State, job: Job): Outcome
    requires forall k :: k in s.idempotency ==> s.idempotency[k] in s.jobs
  {
    if KeyOf(job) in s.idempotency then
      Accepted(s, s.jobs[s.idempotency[KeyOf(job)]])
    else if job.id in s.jobs then
      Rejected(DuplicateJobId)
    else
      Accepted(s.(jobs := s.jobs[job.id := job], idempotency := s.idempotency[KeyOf(job) := job.id]), job)
  }

  function Submit(s: State, submission: JobSubmission, now: int): Outcome
    requires forall k :: k in s.idempotency ==> s.idempotency[k] in s.jobs
  {
    if !ValidSubmission(submission) then Rejected(InvalidSubmission) else Enqueue(s, PendingJob(submission, now))
  }

  // ----- Claim -----

  predicate Eligible(j: Job, now: int) {
    (j.state.Pending? || j.state.RetryScheduled?) && j.nextAttemptAt <= now
  }

  function EligibleIds(s: State, now: int): set<string> {
    set id | id in s.jobs && Eligible(s.jobs[id], now)
  }

  function LastClaim(s: State, tenant: string): int {
    if tenant in s.lastClaim then s.lastClaim[tenant] else -1
  }

  /** The fair-claim sort key, compared component by component. */
  predicate ClaimsBefore(s: State, a: Job, b: Job) {
    var la, lb := LastClaim(s, a.tenant), LastClaim(s, b.tenant);
    la < lb || (la == lb && (a.createdAt < b.createdAt || (a.createdAt == b.createdAt && (
      StrLess(a.tenant, b.tenant) || (a.tenant == b.tenant && (
        StrLess(a.workspace, b.workspace) || (a.workspace == b.workspace &&
          StrLess(a.id, b.id))))))))
  }

  lemma ClaimsBeforeTotal(s: State, a: Job, b: Job)
    ensures ClaimsBefore(s, a, b) || ClaimsBefore(s, b, a) || a.id == b.id
  {
    StrTotal(a.tenant, b.tenant);
    StrTotal(a.workspace, b.workspace);
    StrTotal(a.id, b.id);
  }

  lemma ClaimsBeforeAsymmetric(s: State, a: Job, b: Job)
    requires ClaimsBefore(s, a, b)
    ensures !ClaimsBefore(s, b, a)
  {
    if StrLess(a.tenant, b.tenant) { StrAsymmetric(a.tenant, b.tenant); }
    if StrLess(a.workspace, b.workspace) { StrAsymmetric(a.workspace, b.workspace); }
    if StrLess(a.id, b.id) { StrAsymmetric(a.id, b.id); }
    if a.tenant == b.tenant && StrLess(b.tenant, a.tenant) { StrAsymmetric(a.tenant, a.tenant); }
    if a.workspace == b.workspace && StrLess(b.workspace, a.workspace) { StrAsymmetric(a.workspace, a.workspace); }
  }

  lemma ClaimsBeforeTransitive(s: State, a: Job, b: Job, c: Job)
    requires ClaimsBefore(s, a, b) && ClaimsBefore(s, b, c)
    ensures ClaimsBefore(s, a, c)
  {
    if StrLess(a.tenant, b.tenant) && StrLess(b.tenant, c.tenant) { StrTransitive(a.tenant, b.tenant, c.tenant); }
    if StrLess(a.workspace, b.workspace) && StrLess(b.workspace, c.workspace) {
      StrTransitive(a.workspace, b.workspace, c.workspace);
    }
    if StrLess(a.id, b.id) && StrLess(b.id, c.id) { StrTransitive(a.id, b.id, c.id); }
  }

  /** `id` is what sorting the candidates by the claim key puts first. */
  predicate FirstToClaim(s: State, candidates: set<string>, id: string)
    requires candidates <= s.jobs.Keys
  {
    id in candidates &&
    forall other {:trigger ClaimsBefore(s, s.jobs[id], s.jobs[other])} ::
      other in candidates && other != id ==> ClaimsBefore(s, s.jobs[id], s.jobs[other])
  }

  ghost predicate WellNamed(s: State) {
    forall id :: id in s.jobs ==> s.jobs[id].id == id
  }

  lemma {:induction false} FirstExists(s: State, candidates: set<string>)
    requires WellNamed(s) && candidates <= s.jobs.Keys && candidates != {}
    ensures exists id :: FirstToClaim(s, candidates, id)
  {
    var x := Pick(candidates);
    if candidates == {x} {
      assert FirstToClaim(s, candidates, x);
    } else {
      var rest := candidates - {x};
      FirstExists(s, rest);
      var y :| FirstToClaim(s, rest, y);
      ClaimsBeforeTotal(s, s.jobs[x], s.jobs[y]);
      if ClaimsBefore(s, s.jobs[x], s.jobs[y]) {
        forall other | other in candidates && other != x ensures ClaimsBefore(s, s.jobs[x], s.jobs[other]) {
          if other != y { ClaimsBeforeTransitive(s, s.jobs[x], s.jobs[y], s.jobs[other]); }
        }
        assert FirstToClaim(s, candidates, x);
      } else {
        assert FirstToClaim(s, candidates, y);
      }
    }
  }

  /** The sort leaves no choice: the key is a total order on jobs. */
  lemma FirstUnique(s: State, candidates: set<string>)
    requires candidates <= s.jobs.Keys
    ensures forall a, b :: FirstToClaim(s, candidates, a) && FirstToClaim(s, candidates, b) ==> a == b
  {
    forall a, b | FirstToClaim(s, candidates, a) && FirstToClaim(s, candidates, b) ensures a == b {
      if a != b { ClaimsBeforeAsymmetric(s, s.jobs[a], s.jobs[b]); }
    }
  }

  /** `eligible.sort(...)` followed by `eligible[0]`. */
  function FirstId(s: State, candidates: set<string>): (id: string)
    requires WellNamed(s) && candidates <= s.jobs.Keys && candidates != {}
    ensures FirstToClaim(s, candidates, id)
  {
    FirstExists(s, candidates);
    FirstUnique(s, candidates);
    var id :| id in candidates && FirstToClaim(s, candidates, id);
    id
  }

  function ClaimedVersion(j: Job, worker: string, now: int, policy: QueuePolicy): Job {
    j.(state := Claimed, leaseOwner := Some(worker), leaseExpiresAt := Some(now + policy.leaseDuration),
       heartbeatAt := Some(now), history := j.history + [ClaimedBy(worker, now)])
  }

  function ClaimSelected(s: State, id: string, worker: string, now: int, policy: QueuePolicy): State
    requires id in s.jobs
  {
    s.(jobs := s.jobs[id := ClaimedVersion(s.jobs[id], worker, now, policy)],
       lastClaim := s.lastClaim[s.jobs[id].tenant := s.counter + 1], counter := s.counter + 1)
  }

  function ClaimNext(s: State, settings: Settings, worker: string, now: int): ClaimOutcome
    requires WellNamed(s)
  {
    if Blank(worker) then ClaimRejected(WorkerRequired)
    else
      var candidates := EligibleIds(s, now);
      if candidates == {} then NothingEligible
      else
        var next := ClaimSelected(s, FirstId(s, candidates), worker, now, settings.policy);
        ClaimedJob(next, next.jobs[FirstId(s, candidates)])
  }

  // ----- Lease-owner operations -----

  predicate OwnsLiveLease(j: Job, worker: string, now: int) {
    j.state.Claimed? && j.leaseOwner == Some(worker) && j.leaseExpiresAt.Some? && j.leaseExpiresAt.value >= now
  }

  /** `_owned_claim`: the error a lease-owner operation meets, if any. */
  function OwnedClaimError(s: State, id: string, worker: string, now: int): Option<QueueError> {
    if id !in s.jobs then Some(UnknownJob)
    else if !OwnsLiveLease(s.jobs[id], worker, now) then Some(NotOwner)
    else None
  }

  function Heartbeat(s: State, settings: Settings, id: string, worker: string, now: int): Outcome {
    var error := OwnedClaimError(s, id, worker, now);
    if error.Some? then Rejected(error.value)
    else
      var j := s.jobs[id].(leaseExpiresAt := Some(now + settings.policy.leaseDuration), heartbeatAt := Some(now));
      Accepted(s.(jobs := s.jobs[id := j]), j)
  }

  function Released(j: Job): Job {
    j.(leaseOwner := None, leaseExpiresAt := None, heartbeatAt := None)
  }

  function Complete(s: State, id: string, worker: string, now: int, result: string): Outcome {
    var error := OwnedClaimError(s, id, worker, now);
    if error.Some? then Rejected(error.value)
    else
      var j := Released(s.jobs[id]).(state := Completed, completedAt := Some(now), result := Some(result),
                                     history := s.jobs[id].history + [CompletedBy(worker, now)]);
      Accepted(s.(jobs := s.jobs[id := j]), j)
  }

  /** One more attempt used up, the lease given back. */
  function FailedAttempt(j: Job, worker: string, now: int, reason: string): Job {
    Released(j).(attempts := j.attempts + 1, history := j.history + [FailedBy(worker, reason, now)])
  }

  function FailedVersion(j: Job, settings: Settings, worker: string, now: int, reason: string, retryable: bool): Job
    requires ValidPolicy(settings.policy)
  {
    var attempts := j.attempts + 1;
    var failed := FailedAttempt(j, worker, now, reason);
    if !retryable || attempts >= j.maxAttempts then
      failed.(state := DeadLetter, deadLetterReason := Some(reason))
    else
      var delay := RetryDelay(settings.digest(j.key, attempts), attempts, settings.policy);
      failed.(state := RetryScheduled, nextAttemptAt := now + delay.value)
  }

  function Fail(s: State, settings: Settings, id: string, worker: string, now: int, reason: string, retryable: bool): Outcome
    requires ValidPolicy(settings.policy)
  {
    if Blank(reason) then Rejected(ReasonRequired)
    else
      var error := OwnedClaimError(s, id, worker, now);
      if error.Some? then Rejected(error.value)
      else
        var j := FailedVersion(s.jobs[id], settings, worker, now, reason, retryable);
        Accepted(s.(jobs := s.jobs[id := j]), j)
  }

  // ----- Recovery and replay -----

  predicate Expired(j: Job, now: int) {
    j.state.Claimed? && j.leaseExpiresAt.Some? && j.leaseExpiresAt.value < now
  }

  function RecoveredVersion(j: Job, now: int): Job {
    var attempts := j.attempts + 1;
    if attempts >= j.maxAttempts then
      Released(j).(state := DeadLetter, attempts := attempts, deadLetterReason := Some("lease_expired"))
    else
      Released(j).(state := Pending, attempts := attempts, nextAttemptAt := now,
                   history := j.history + [LeaseExpired(now)])
  }

  function RecoverExpired(s: State, now: int): State {
    s.(jobs := map id | id in s.jobs :: if Expired(s.jobs[id], now) then RecoveredVersion(s.jobs[id], now) else s.jobs[id])
  }

  function ReplaySubmission(original: Job, replayId: string): JobSubmission {
    JobSubmission(original.tenant, original.workspace, replayId, original.jobType,
                  "replay:" + replayId + ":" + original.key, original.payload, original.maxAttempts)
  }

  function ReplayDeadLetter(s: State, id: string, replayId: string, actor: string, now: int): Outcome
    requires forall k :: k in s.idempotency ==> s.idempotency[k] in s.jobs
  {
    if id !in s.jobs then Rejected(UnknownJob)
    else if !s.jobs[id].state.DeadLetter? then Rejected(NotDeadLetter)
    else if Blank(actor) then Rejected(AuthorizerRequired)
    else
      var submission := ReplaySubmission(s.jobs[id], replayId);
      if !ValidSubmission(submission) then Rejected(InvalidSubmission)
      else
        Enqueue(s, PendingJob(submission, now).(replayOf := Some(s.jobs[id].id), history := [ReplayedBy(actor, now)]))
  }
}
