/** The journaled setup saga: what a run writes and calls, and what holds at every moment of a session. */
module SetupSaga {
  datatype ActionState = Running | Applied | Verified | Failed | Compensating | Compensated | ManualRecoveryRequired

  datatype Action = Action(id: string, reversible: bool, dependsOn: seq<string>)

  datatype Transition = Transition(action: string, state: ActionState)

  datatype OptionalState = Absent | Latest(state: ActionState)

  /** The action identifiers for which each runner call succeeds during one run. */
  datatype Runner = Runner(applies: set<string>, verifies: set<string>, compensates: set<string>)

  /** What a run does, in order: journal writes and runner calls. */
  datatype Event =
    | Write(id: string, state: ActionState)
    | Apply(id: string)
    | Verify(id: string)
    | Compensate(id: string)

  // ----- The plan -----

  ghost predicate UniqueIds(actions: seq<Action>) {
    forall i, j :: 0 <= i < j < |actions| ==> actions[i].id != actions[j].id
  }

  ghost predicate DependenciesFirst(actions: seq<Action>) {
    forall i, d :: 0 <= i < |actions| && d in actions[i].dependsOn ==> exists j :: 0 <= j < i && actions[j].id == d
  }

  /** Accepts exactly the plans with unique identifiers in dependency order. */
  method ValidateDependencyOrder(actions: seq<Action>) returns (ok: bool)
    ensures ok <==> UniqueIds(actions) && DependenciesFirst(actions)
  {
    var ids := Ids(actions);
    DistinctIds(actions);
    if |actions| != |ids| {
      return false;
    }
    var known: set<string> := {};
    for i := 0 to |actions|
      invariant forall d :: d in known <==> exists j :: 0 <= j < i && actions[j].id == d
      invariant forall k, d :: 0 <= k < i && d in actions[k].dependsOn ==> exists j :: 0 <= j < k && actions[j].id == d
    {
      if !forall k :: 0 <= k < |actions[i].dependsOn| ==> actions[i].dependsOn[k] in known {
        var k :| 0 <= k < |actions[i].dependsOn| && actions[i].dependsOn[k] !in known;
        assert actions[i].dependsOn[k] in actions[i].dependsOn;
        return false;
      }
      known := known + {actions[i].id};
    }
    ok := true;
  }

  function Ids(actions: seq<Action>): set<string> {
    set a | a in actions :: a.id
  }

  lemma IdsAppend(actions: seq<Action>, a: Action)
    ensures Ids(actions + [a]) == Ids(actions) + {a.id}
  {
    assert a in actions + [a];
    assert forall x :: x in actions + [a] <==> x in actions || x == a;
  }

  lemma UniqueAppend(actions: seq<Action>, a: Action)
    ensures UniqueIds(actions + [a]) <==> UniqueIds(actions) && a.id !in Ids(actions)
  {
    var all := actions + [a];
    if a.id in Ids(actions) {
      var b :| b in actions && b.id == a.id;
      var i :| 0 <= i < |actions| && actions[i] == b;
      assert all[i].id == all[|actions|].id;
    } else {
      forall i | 0 <= i < |actions| ensures all[i].id != a.id { assert actions[i] in actions; }
      if UniqueIds(all) {
        forall i, j | 0 <= i < j < |actions| ensures actions[i].id != actions[j].id {
          assert all[i].id != all[j].id;
        }
      }
    }
  }

  lemma {:induction false} DistinctIds(actions: seq<Action>)
    ensures |Ids(actions)| <= |actions|
    ensures |Ids(actions)| == |actions| <==> UniqueIds(actions)
  {
    if actions != [] {
      var k := |actions| - 1;
      DistinctIds(actions[..k]);
      IdsAppend(actions[..k], actions[k]);
      UniqueAppend(actions[..k], actions[k]);
      assert actions == actions[..k] + [actions[k]];
    }
  }

  // ----- The journal of one session -----

  /** The state recorded last for an action. */
  function LatestState(log: seq<Transition>, id: string): OptionalState {
    if log == [] then Absent
    else if log[|log| - 1].action == id then Latest(log[|log| - 1].state)
    else LatestState(log[..|log| - 1], id)
  }

  predicate IsVerified(log: seq<Transition>, id: string) {
    LatestState(log, id) == Latest(Verified)
  }

  lemma LatestAppend(log: seq<Transition>, t: Transition, id: string)
    ensures LatestState(log + [t], id) == if t.action == id then Latest(t.state) else LatestState(log, id)
  {
    assert (log + [t])[..|log|] == log;
  }

  function Record(log: seq<Transition>, e: Event): seq<Transition> {
    if e.Write? then log + [Transition(e.id, e.state)] else log
  }

  function RecordAll(log: seq<Transition>, events: seq<Event>): seq<Transition>
    decreases |events|
  {
    if events == [] then log else RecordAll(Record(log, events[0]), events[1..])
  }

  // ----- One run -----

  /** The events that undo one action. */
  function Undo(a: Action, runner: Runner): seq<Event> {
    if !a.reversible then [Write(a.id, ManualRecoveryRequired)]
    else [Write(a.id, Compensating), Compensate(a.id),
          Write(a.id, if a.id in runner.compensates then Compensated else ManualRecoveryRequired)]
  }

  /** Undo the applied actions, last first. */
  function Compensation(applied: seq<Action>, runner: Runner): seq<Event> {
    if applied == [] then []
    else Undo(applied[|applied| - 1], runner) + Compensation(applied[..|applied| - 1], runner)
  }

  /** The events of trying one action, up to the write that decides it. */
  function Try(a: Action, runner: Runner): seq<Event> {
    if a.id !in runner.applies then [Write(a.id, Running), Apply(a.id), Write(a.id, Failed)]
    else [Write(a.id, Running), Apply(a.id), Write(a.id, Applied), Verify(a.id),
          Write(a.id, if a.id in runner.verifies then Verified else Failed)]
  }

  predicate Succeeds(a: Action, runner: Runner) {
    a.id in runner.applies && a.id in runner.verifies
  }

  /** The run from `actions` on, with `existing` loaded at its start and `applied` done so far. */
  function RunFrom(actions: seq<Action>, existing: seq<Transition>, runner: Runner, applied: seq<Action>): seq<Event>
    decreases |actions|
  {
    if actions == [] then []
    else
      var a := actions[0];
      if IsVerified(existing, a.id) then RunFrom(actions[1..], existing, runner, applied)
      else if Succeeds(a, runner) then Try(a, runner) + RunFrom(actions[1..], existing, runner, applied + [a])
      else Try(a, runner) + Compensation(if a.id in runner.applies then applied + [a] else applied, runner)
  }

  function RunEvents(actions: seq<Action>, log: seq<Transition>, runner: Runner): seq<Event> {
    RunFrom(actions, log, runner, [])
  }

  // ----- Sessions -----

  /** One attempt at the plan: how the runner answered, and after how many events the process stopped. */
  datatype Attempt = Attempt(runner: Runner, cut: nat)

  function Until(events: seq<Event>, cut: nat): seq<Event> {
    if cut < |events| then events[..cut] else events
  }

  /** Everything that happens in a session of runs, failures, crashes and resumes, from an existing journal on. */
  function History(actions: seq<Action>, log: seq<Transition>, attempts: seq<Attempt>): seq<Event>
    decreases |attempts|
  {
    if attempts == [] then []
    else
      var events := Until(RunEvents(actions, log, attempts[0].runner), attempts[0].cut);
      events + History(actions, RecordAll(log, events), attempts[1..])
  }

  /** The verified actions are exactly the first `n` of the plan. */
  ghost predicate VerifiedPrefix(actions: seq<Action>, log: seq<Transition>, n: nat) {
    n <= |actions| && forall i :: 0 <= i < |actions| ==> (IsVerified(log, actions[i].id) <==> i < n)
  }

  ghost predicate Safe(actions: seq<Action>, log: seq<Transition>) {
    exists n: nat :: VerifiedPrefix(actions, log, n)
  }

  /** An action is taken up: it is marked running, or applied. */
  predicate Starts(e: Event) {
    e.Apply? || (e.Write? && e.state.Running?)
  }

  /** The action after the verified ones. */
  ghost predicate NextUp(actions: seq<Action>, log: seq<Transition>, id: string) {
    exists n: nat :: n < |actions| && VerifiedPrefix(actions, log, n) && actions[n].id == id
  }

  /** At every moment the verified actions form a prefix of the plan, and only the action after them is taken up. */
  ghost predicate SafeTrace(actions: seq<Action>, log: seq<Transition>, events: seq<Event>)
    decreases |events|
  {
    && Safe(actions, log)
    && (events == [] || (
      && (Starts(events[0]) ==> NextUp(actions, log, events[0].id))
      && SafeTrace(actions, Record(log, events[0]), events[1..])))
  }

  /** A safe trace that leaves exactly the first `n` actions verified. */
  ghost predicate LeadsTo(actions: seq<Action>, log: seq<Transition>, events: seq<Event>, n: nat) {
    SafeTrace(actions, log, events) && VerifiedPrefix(actions, RecordAll(log, events), n)
  }

  // ----- Traces in general -----

  lemma {:induction false} RecordConcat(log: seq<Transition>, a: seq<Event>, b: seq<Event>)
    ensures RecordAll(log, a + b) == RecordAll(RecordAll(log, a), b)
    decreases |a|
  {
    if a == [] {
      assert a + b == b;
    } else {
      assert (a + b)[1..] == a[1..] + b;
      RecordConcat(Record(log, a[0]), a[1..], b);
    }
  }

  /** One more event in front of a safe trace. */
  lemma SafeCons(actions: seq<Action>, log: seq<Transition>, n: nat, e: Event, rest: seq<Event>)
    requires VerifiedPrefix(actions, log, n) && (Starts(e) ==> n < |actions| && e.id == actions[n].id)
    requires SafeTrace(actions, Record(log, e), rest)
    ensures SafeTrace(actions, log, [e] + rest)
    ensures RecordAll(log, [e] + rest) == RecordAll(Record(log, e), rest)
  {
    assert ([e] + rest)[1..] == rest;
  }

  lemma SafeEmpty(actions: seq<Action>, log: seq<Transition>, n: nat)
    requires VerifiedPrefix(actions, log, n)
    ensures SafeTrace(actions, log, []) && RecordAll(log, []) == log
  {
  }

  lemma {:induction false} SafeConcat(actions: seq<Action>, log: seq<Transition>, a: seq<Event>, b: seq<Event>)
    requires SafeTrace(actions, log, a) && SafeTrace(actions, RecordAll(log, a), b)
    ensures SafeTrace(actions, log, a + b)
    decreases |a|
  {
    if a == [] {
      assert a + b == b;
    } else {
      assert (a + b)[1..] == a[1..] + b;
      SafeConcat(actions, Record(log, a[0]), a[1..], b);
    }
  }

  /** A crash cuts a safe trace anywhere and leaves a safe trace. */
  lemma {:induction false} SafeCut(actions: seq<Action>, log: seq<Transition>, events: seq<Event>, k: nat)
    requires SafeTrace(actions, log, events) && k <= |events|
    ensures SafeTrace(actions, log, events[..k])
    ensures Safe(actions, RecordAll(log, events[..k]))
    ensures k < |events| && Starts(events[k]) ==> NextUp(actions, RecordAll(log, events[..k]), events[k].id)
    decreases k
  {
    if k > 0 {
      assert events[..k][1..] == events[1..][..k - 1];
      SafeCut(actions, Record(log, events[0]), events[1..], k - 1);
    }
  }

  /** A write of a state other than verified. */
  lemma WriteMoves(actions: seq<Action>, log: seq<Transition>, n: nat, i: nat, state: ActionState)
    requires UniqueIds(actions) && VerifiedPrefix(actions, log, n) && i < |actions|
    requires if state.Verified? then i == n else i >= n || i == n - 1
    ensures VerifiedPrefix(actions, Record(log, Write(actions[i].id, state)), if state.Verified? then n + 1 else if i < n then i else n)
  {
    forall j | 0 <= j < |actions|
      ensures LatestState(Record(log, Write(actions[i].id, state)), actions[j].id) ==
              if i == j then Latest(state) else LatestState(log, actions[j].id)
    {
      LatestAppend(log, Transition(actions[i].id, state), actions[j].id);
    }
  }

  // ----- Compensation -----

  lemma UndoSafe(actions: seq<Action>, log: seq<Transition>, runner: Runner, i: nat, n: nat)
    requires UniqueIds(actions) && i < |actions| && VerifiedPrefix(actions, log, n) && i <= n <= i + 1
    ensures LeadsTo(actions, log, Undo(actions[i], runner), i)
  {
    var a := actions[i];
    if !a.reversible {
      var e := Write(a.id, ManualRecoveryRequired);
      WriteMoves(actions, log, n, i, ManualRecoveryRequired);
      SafeEmpty(actions, Record(log, e), i);
      SafeCons(actions, log, n, e, []);
      assert [e] + [] == Undo(a, runner);
    } else {
      var first, last := Write(a.id, Compensating), Write(a.id, if a.id in runner.compensates then Compensated else ManualRecoveryRequired);
      WriteMoves(actions, log, n, i, Compensating);
      var l1 := Record(log, first);
      WriteMoves(actions, l1, i, i, last.state);
      SafeEmpty(actions, Record(l1, last), i);
      SafeCons(actions, l1, i, last, []);
      SafeCons(actions, l1, i, Compensate(a.id), [last] + []);
      SafeCons(actions, log, n, first, [Compensate(a.id)] + ([last] + []));
      assert [first] + ([Compensate(a.id)] + ([last] + [])) == Undo(a, runner);
    }
  }

  lemma LastApplied(actions: seq<Action>, runner: Runner, m: nat, j: nat)
    requires m < j <= |actions|
    ensures Compensation(actions[m..j], runner) == Undo(actions[j - 1], runner) + Compensation(actions[m..j - 1], runner)
  {
    var applied := actions[m..j];
    assert applied[|applied| - 1] == actions[j - 1] && applied[..|applied| - 1] == actions[m..j - 1];
  }

  /** Two safe traces in a row, with the verified prefix they end in. */
  lemma SafeThen(actions: seq<Action>, log: seq<Transition>, a: seq<Event>, b: seq<Event>, m: nat)
    requires SafeTrace(actions, log, a) && LeadsTo(actions, RecordAll(log, a), b, m)
    ensures LeadsTo(actions, log, a + b, m)
  {
    SafeConcat(actions, log, a, b);
    RecordConcat(log, a, b);
  }

  lemma UndoThen(actions: seq<Action>, log: seq<Transition>, runner: Runner, m: nat, j: nat)
    requires m < j <= |actions|
    requires SafeTrace(actions, log, Undo(actions[j - 1], runner))
    requires LeadsTo(actions, RecordAll(log, Undo(actions[j - 1], runner)), Compensation(actions[m..j - 1], runner), m)
    ensures LeadsTo(actions, log, Compensation(actions[m..j], runner), m)
  {
    SafeThen(actions, log, Undo(actions[j - 1], runner), Compensation(actions[m..j - 1], runner), m);
    LastApplied(actions, runner, m, j);
  }

  /** Undoing the actions from `m` up to `j` leaves the first `m` verified. */
  lemma {:induction false} CompensationSafe(actions: seq<Action>, log: seq<Transition>, runner: Runner, m: nat, j: nat, n: nat)
    requires UniqueIds(actions) && m <= j <= |actions| && VerifiedPrefix(actions, log, n)
    requires n == j || (n == j - 1 && m < j)
    ensures LeadsTo(actions, log, Compensation(actions[m..j], runner), m)
    decreases j
  {
    if m == j {
      SafeEmpty(actions, log, n);
    } else {
      UndoSafe(actions, log, runner, j - 1, n);
      CompensationSafe(actions, RecordAll(log, Undo(actions[j - 1], runner)), runner, m, j - 1, j - 1);
      UndoThen(actions, log, runner, m, j);
    }
  }

  // ----- One run is safe -----

  /** Trying the first unverified action moves the verified prefix by one exactly if apply and verify succeed. */
  lemma TrySafe(actions: seq<Action>, log: seq<Transition>, runner: Runner, i: nat)
    requires UniqueIds(actions) && i < |actions| && VerifiedPrefix(actions, log, i)
    ensures LeadsTo(actions, log, Try(actions[i], runner), if Succeeds(actions[i], runner) then i + 1 else i)
  {
    var id := actions[i].id;
    var e1, e2 := Write(id, Running), Apply(id);
    var l1 := Record(log, e1);
    WriteMoves(actions, log, i, i, Running);
    if id !in runner.applies {
      var e3 := Write(id, Failed);
      WriteMoves(actions, l1, i, i, Failed);
      SafeEmpty(actions, Record(l1, e3), i);
      SafeCons(actions, l1, i, e3, []);
      SafeCons(actions, l1, i, e2, [e3] + []);
      SafeCons(actions, log, i, e1, [e2] + ([e3] + []));
      assert [e1] + ([e2] + ([e3] + [])) == Try(actions[i], runner);
    } else {
      var e3, e4, e5 := Write(id, Applied), Verify(id), Write(id, if id in runner.verifies then Verified else Failed);
      WriteMoves(actions, l1, i, i, Applied);
      var l2 := Record(l1, e3);
      WriteMoves(actions, l2, i, i, e5.state);
      SafeEmpty(actions, Record(l2, e5), if id in runner.verifies then i + 1 else i);
      SafeCons(actions, l2, i, e5, []);
      SafeCons(actions, l2, i, e4, [e5] + []);
      SafeCons(actions, l1, i, e3, [e4] + ([e5] + []));
      SafeCons(actions, l1, i, e2, [e3] + ([e4] + ([e5] + [])));
      SafeCons(actions, log, i, e1, [e2] + ([e3] + ([e4] + ([e5] + []))));
      assert [e1] + ([e2] + ([e3] + ([e4] + ([e5] + [])))) == Try(actions[i], runner);
    }
  }

  /** Whether the run from position `i` on gets through. */
  function RunSucceeds(actions: seq<Action>, i: nat, runner: Runner): bool
    requires i <= |actions|
    decreases |actions| - i
  {
    i == |actions| || (Succeeds(actions[i], runner) && RunSucceeds(actions, i + 1, runner))
  }

  /** The action at `i` fails: it and what was applied since `m` are undone. */
  lemma FailureSafe(actions: seq<Action>, log: seq<Transition>, runner: Runner, m: nat, i: nat)
    requires UniqueIds(actions) && m <= i < |actions| && VerifiedPrefix(actions, log, i) && !Succeeds(actions[i], runner)
    ensures var j := if actions[i].id in runner.applies then i + 1 else i;
            LeadsTo(actions, log, Try(actions[i], runner) + Compensation(actions[m..j], runner), m)
  {
    var j := if actions[i].id in runner.applies then i + 1 else i;
    TrySafe(actions, log, runner, i);
    CompensationSafe(actions, RecordAll(log, Try(actions[i], runner)), runner, m, j, i);
    SafeThen(actions, log, Try(actions[i], runner), Compensation(actions[m..j], runner), m);
  }

  lemma TryMoves(actions: seq<Action>, log: seq<Transition>, runner: Runner, i: nat)
    requires UniqueIds(actions) && i < |actions| && VerifiedPrefix(actions, log, i) && Succeeds(actions[i], runner)
    ensures VerifiedPrefix(actions, RecordAll(log, Try(actions[i], runner)), i + 1)
  {
    TrySafe(actions, log, runner, i);
  }

  /** The action at `i` succeeds: the rest of the run goes on from there. */
  lemma SuccessSafe(actions: seq<Action>, log: seq<Transition>, runner: Runner, i: nat, rest: seq<Event>, n: nat)
    requires UniqueIds(actions) && i < |actions| && VerifiedPrefix(actions, log, i) && Succeeds(actions[i], runner)
    requires LeadsTo(actions, RecordAll(log, Try(actions[i], runner)), rest, n)
    ensures LeadsTo(actions, log, Try(actions[i], runner) + rest, n)
  {
    TrySafe(actions, log, runner, i);
    SafeThen(actions, log, Try(actions[i], runner), rest, n);
  }

  lemma FirstOf(actions: seq<Action>, m: nat, i: nat)
    requires m <= i < |actions|
    ensures actions[i..] != [] && actions[i..][0] == actions[i] && actions[i..][1..] == actions[i + 1..]
    ensures actions[m..i] + [actions[i]] == actions[m..i + 1]
  {
  }

  /** What a run does from `i` on, by how the action at `i` goes. */
  lemma RunFromAt(actions: seq<Action>, existing: seq<Transition>, runner: Runner, m: nat, i: nat)
    requires m <= i < |actions| && !IsVerified(existing, actions[i].id)
    ensures RunFrom(actions[i..], existing, runner, actions[m..i]) ==
            if Succeeds(actions[i], runner) then Try(actions[i], runner) + RunFrom(actions[i + 1..], existing, runner, actions[m..i + 1])
            else Try(actions[i], runner) + Compensation(actions[m..if actions[i].id in runner.applies then i + 1 else i], runner)
  {
    FirstOf(actions, m, i);
  }

  lemma SuccessCase(actions: seq<Action>, existing: seq<Transition>, log: seq<Transition>, runner: Runner, m: nat, i: nat, n: nat)
    requires UniqueIds(actions) && m <= i < |actions| && VerifiedPrefix(actions, log, i) && Succeeds(actions[i], runner)
    requires !IsVerified(existing, actions[i].id)
    requires LeadsTo(actions, RecordAll(log, Try(actions[i], runner)), RunFrom(actions[i + 1..], existing, runner, actions[m..i + 1]), n)
    ensures LeadsTo(actions, log, RunFrom(actions[i..], existing, runner, actions[m..i]), n)
  {
    RunFromAt(actions, existing, runner, m, i);
    SuccessSafe(actions, log, runner, i, RunFrom(actions[i + 1..], existing, runner, actions[m..i + 1]), n);
  }

  lemma FailureCase(actions: seq<Action>, existing: seq<Transition>, log: seq<Transition>, runner: Runner, m: nat, i: nat)
    requires UniqueIds(actions) && m <= i < |actions| && VerifiedPrefix(actions, log, i) && !Succeeds(actions[i], runner)
    requires !IsVerified(existing, actions[i].id)
    ensures LeadsTo(actions, log, RunFrom(actions[i..], existing, runner, actions[m..i]), m)
  {
    RunFromAt(actions, existing, runner, m, i);
    FailureSafe(actions, log, runner, m, i);
  }

  /** From the first unverified action on: safe at every moment; all verified at the end, or exactly what was before. */
  lemma {:induction false} RunFromSafe(actions: seq<Action>, existing: seq<Transition>, log: seq<Transition>, runner: Runner, m: nat, i: nat)
    requires UniqueIds(actions) && m <= i <= |actions|
    requires VerifiedPrefix(actions, existing, m) && VerifiedPrefix(actions, log, i)
    ensures LeadsTo(actions, log, RunFrom(actions[i..], existing, runner, actions[m..i]),
                    if RunSucceeds(actions, i, runner) then |actions| else m)
    decreases |actions| - i
  {
    if i == |actions| {
      SafeEmpty(actions, log, i);
    } else if Succeeds(actions[i], runner) {
      TryMoves(actions, log, runner, i);
      RunFromSafe(actions, existing, RecordAll(log, Try(actions[i], runner)), runner, m, i + 1);
      SuccessCase(actions, existing, log, runner, m, i, if RunSucceeds(actions, i + 1, runner) then |actions| else m);
    } else {
      FailureCase(actions, existing, log, runner, m, i);
    }
  }

  /** Verified actions are skipped without a trace. */
  lemma {:induction false} SkipVerified(actions: seq<Action>, existing: seq<Transition>, runner: Runner, m: nat, i: nat)
    requires VerifiedPrefix(actions, existing, m) && i <= m
    ensures RunFrom(actions[i..], existing, runner, []) == RunFrom(actions[m..], existing, runner, [])
    decreases m - i
  {
    if i < m {
      assert actions[i..][0] == actions[i] && actions[i..][1..] == actions[i + 1..];
      SkipVerified(actions, existing, runner, m, i + 1);
    }
  }

  /** An uninterrupted run verifies the whole plan, or restores exactly the verified set it started with. */
  lemma RunSafe(actions: seq<Action>, log: seq<Transition>, runner: Runner, m: nat)
    requires UniqueIds(actions) && VerifiedPrefix(actions, log, m)
    ensures LeadsTo(actions, log, RunEvents(actions, log, runner), if RunSucceeds(actions, m, runner) then |actions| else m)
  {
    assert actions[0..] == actions && actions[m..m] == [];
    SkipVerified(actions, log, runner, m, 0);
    RunFromSafe(actions, log, log, runner, m, m);
  }

  // ----- Whole sessions -----

  lemma {:induction false} HistorySafe(actions: seq<Action>, log: seq<Transition>, attempts: seq<Attempt>, m: nat)
    requires UniqueIds(actions) && VerifiedPrefix(actions, log, m)
    ensures SafeTrace(actions, log, History(actions, log, attempts))
    decreases |attempts|
  {
    if attempts == [] {
      SafeEmpty(actions, log, m);
    } else {
      var full := RunEvents(actions, log, attempts[0].runner);
      RunSafe(actions, log, attempts[0].runner, m);
      var cut := if attempts[0].cut < |full| then attempts[0].cut else |full|;
      assert full[..|full|] == full;
      var events := full[..cut];
      SafeCut(actions, log, full, cut);
      var log' := RecordAll(log, events);
      var n: nat :| VerifiedPrefix(actions, log', n);
      HistorySafe(actions, log', attempts[1..], n);
      SafeConcat(actions, log, events, History(actions, log', attempts[1..]));
    }
  }

  /** An action is taken up only while it is not verified itself and everything it depends on is. */
  ghost predicate MayStart(actions: seq<Action>, log: seq<Transition>, id: string) {
    exists i :: 0 <= i < |actions| && actions[i].id == id && !IsVerified(log, id) && forall d :: d in actions[i].dependsOn ==> IsVerified(log, d)
  }

  lemma NextMayStart(actions: seq<Action>, log: seq<Transition>, id: string)
    requires DependenciesFirst(actions) && NextUp(actions, log, id)
    ensures MayStart(actions, log, id)
  {
    var n: nat :| n < |actions| && VerifiedPrefix(actions, log, n) && actions[n].id == id;
    forall d | d in actions[n].dependsOn ensures IsVerified(log, d) {
      var j :| 0 <= j < n && actions[j].id == d;
    }
  }

  /** At every moment of every session: a verified prefix, closed under dependencies; actions are taken up only after all they depend on. */
  lemma SessionSafety(actions: seq<Action>, attempts: seq<Attempt>, k: nat)
    requires UniqueIds(actions) && DependenciesFirst(actions)
    requires k <= |History(actions, [], attempts)|
    ensures var events := History(actions, [], attempts);
            var log := RecordAll([], events[..k]);
            && Safe(actions, log)
            && (forall i, d :: 0 <= i < |actions| && IsVerified(log, actions[i].id) && d in actions[i].dependsOn ==> IsVerified(log, d))
            && (k < |events| && Starts(events[k]) ==> MayStart(actions, log, events[k].id))
  {
    assert VerifiedPrefix(actions, [], 0);
    HistorySafe(actions, [], attempts, 0);
    var events := History(actions, [], attempts);
    SafeCut(actions, [], events, k);
    var log := RecordAll([], events[..k]);
    if k < |events| && Starts(events[k]) { NextMayStart(actions, log, events[k].id); }
    var n: nat :| VerifiedPrefix(actions, log, n);
    forall i, d | 0 <= i < |actions| && IsVerified(log, actions[i].id) && d in actions[i].dependsOn
      ensures IsVerified(log, d)
    {
      var j :| 0 <= j < i && actions[j].id == d;
    }
  }

  // ----- Every recorded outcome is the runner's -----

  /** What stands directly before `e`: the call whose outcome it records, or the record that announces the call. */
  predicate CausedBy(e: Event, before: Event) {
    match e
    case Write(id, Applied) => before == Apply(id)
    case Write(id, Verified) => before == Verify(id)
    case Write(id, Failed) => before == Apply(id) || before == Verify(id)
    case Write(id, Compensated) => before == Compensate(id)
    case Apply(id) => before == Write(id, Running)
    case Verify(id) => before == Write(id, Applied)
    case Compensate(id) => before == Write(id, Compensating)
    case _ => true
  }

  /** An announcement of a run, an undoing, or the end of what has no compensation: it needs nothing before it. */
  predicate Opens(e: Event) {
    e.Write? && (e.state.Running? || e.state.Compensating? || e.state.ManualRecoveryRequired?)
  }

  /** Every event that needs a cause follows it directly. */
  ghost predicate Caused(events: seq<Event>) {
    forall k :: 0 <= k < |events| ==> CausedAt(events, k)
  }

  predicate CausedAt(events: seq<Event>, k: nat)
    requires k < |events|
  {
    Opens(events[k]) || (k > 0 && CausedBy(events[k], events[k - 1]))
  }

  /** What follows directly on `e` when the runner answers as it does. */
  predicate AnsweredBy(e: Event, next: Event, runner: Runner) {
    match e
    case Write(id, Running) => next == Apply(id)
    case Write(id, Applied) => next == Verify(id)
    case Write(id, Compensating) => next == Compensate(id)
    case Apply(id) => next == Write(id, if id in runner.applies then Applied else Failed)
    case Verify(id) => next == Write(id, if id in runner.verifies then Verified else Failed)
    case Compensate(id) => next == Write(id, if id in runner.compensates then Compensated else ManualRecoveryRequired)
    case _ => true
  }

  /** A record of how a call ended, after which the run goes on elsewhere. */
  predicate Ends(e: Event) {
    e.Write? && !(e.state.Running? || e.state.Applied? || e.state.Compensating?)
  }

  /** Every announcement is followed by its call and every call by the record of the runner's answer. */
  ghost predicate Answered(events: seq<Event>, runner: Runner) {
    forall k :: 0 <= k < |events| ==> AnsweredAt(events, runner, k)
  }

  predicate AnsweredAt(events: seq<Event>, runner: Runner, k: nat)
    requires k < |events|
  {
    Ends(events[k]) || (k + 1 < |events| && AnsweredBy(events[k], events[k + 1], runner))
  }

  ghost predicate Honest(events: seq<Event>, runner: Runner) {
    Caused(events) && Answered(events, runner)
  }

  lemma HonestConcat(a: seq<Event>, b: seq<Event>, runner: Runner)
    requires Honest(a, runner) && Honest(b, runner)
    ensures Honest(a + b, runner)
  {
    CausedConcat(a, b);
    var c := a + b;
    forall k | 0 <= k < |c| ensures AnsweredAt(c, runner, k) {
      assert if k < |a| then AnsweredAt(a, runner, k) else AnsweredAt(b, runner, k - |a|);
    }
  }

  lemma CausedConcat(a: seq<Event>, b: seq<Event>)
    requires Caused(a) && Caused(b)
    ensures Caused(a + b)
  {
    var c := a + b;
    forall k | 0 <= k < |c| ensures CausedAt(c, k) {
      assert if k < |a| then CausedAt(a, k) else CausedAt(b, k - |a|);
    }
  }

  lemma CausedCut(events: seq<Event>, k: nat)
    requires Caused(events) && k <= |events|
    ensures Caused(events[..k])
  {
    forall j | 0 <= j < k ensures CausedAt(events[..k], j) {
      assert CausedAt(events, j);
    }
  }

  lemma TryHonest(a: Action, runner: Runner)
    ensures Honest(Try(a, runner), runner)
  {
  }

  lemma UndoHonest(a: Action, runner: Runner)
    ensures Honest(Undo(a, runner), runner)
  {
  }

  lemma {:induction false} CompensationHonest(applied: seq<Action>, runner: Runner)
    ensures Honest(Compensation(applied, runner), runner)
  {
    if applied != [] {
      var last, rest := applied[|applied| - 1], applied[..|applied| - 1];
      UndoHonest(last, runner);
      CompensationHonest(rest, runner);
      HonestConcat(Undo(last, runner), Compensation(rest, runner), runner);
    }
  }

  /** In every run a recorded outcome directly follows its call, every call its announcement, and the outcome is the runner's answer. */
  lemma {:induction false} RunHonest(actions: seq<Action>, existing: seq<Transition>, runner: Runner, applied: seq<Action>)
    ensures Honest(RunFrom(actions, existing, runner, applied), runner)
    decreases |actions|
  {
    if actions != [] {
      var a := actions[0];
      TryHonest(a, runner);
      if IsVerified(existing, a.id) {
        RunHonest(actions[1..], existing, runner, applied);
      } else if Succeeds(a, runner) {
        RunHonest(actions[1..], existing, runner, applied + [a]);
        HonestConcat(Try(a, runner), RunFrom(actions[1..], existing, runner, applied + [a]), runner);
      } else {
        var undone := if a.id in runner.applies then applied + [a] else applied;
        CompensationHonest(undone, runner);
        HonestConcat(Try(a, runner), Compensation(undone, runner), runner);
      }
    }
  }

  /** Over whole sessions, crashes included, nothing is recorded as applied, verified or compensated without the call just before. */
  lemma {:induction false} HistoryCaused(actions: seq<Action>, log: seq<Transition>, attempts: seq<Attempt>)
    ensures Caused(History(actions, log, attempts))
    decreases |attempts|
  {
    if attempts != [] {
      var full := RunEvents(actions, log, attempts[0].runner);
      var events := Until(full, attempts[0].cut);
      RunHonest(actions, log, attempts[0].runner, []);
      if attempts[0].cut < |full| { CausedCut(full, attempts[0].cut); }
      HistoryCaused(actions, RecordAll(log, events), attempts[1..]);
      CausedConcat(events, History(actions, RecordAll(log, events), attempts[1..]));
    }
  }

  // ----- Verified actions are left alone -----

  /** None of the events concerns an action that the journal has as verified. */
  ghost predicate LeavesVerified(log: seq<Transition>, events: seq<Event>) {
    forall e :: e in events ==> !IsVerified(log, e.id)
  }

  ghost predicate NoneVerified(log: seq<Transition>, actions: seq<Action>) {
    forall a :: a in actions ==> !IsVerified(log, a.id)
  }

  lemma {:induction false} CompensationLeavesVerified(log: seq<Transition>, applied: seq<Action>, runner: Runner)
    requires NoneVerified(log, applied)
    ensures LeavesVerified(log, Compensation(applied, runner))
  {
    if applied != [] {
      var last := applied[|applied| - 1];
      assert last in applied;
      CompensationLeavesVerified(log, applied[..|applied| - 1], runner);
      assert forall e :: e in Undo(last, runner) ==> e.id == last.id;
    }
  }

  /** From any journal: no write, call or compensation of a run concerns an action that was verified at its start. */
  lemma {:induction false} RunLeavesVerified(actions: seq<Action>, existing: seq<Transition>, runner: Runner, applied: seq<Action>)
    requires NoneVerified(existing, applied)
    ensures LeavesVerified(existing, RunFrom(actions, existing, runner, applied))
    decreases |actions|
  {
    if actions != [] {
      var a := actions[0];
      assert forall e :: e in Try(a, runner) ==> e.id == a.id;
      if IsVerified(existing, a.id) {
        RunLeavesVerified(actions[1..], existing, runner, applied);
      } else if Succeeds(a, runner) {
        RunLeavesVerified(actions[1..], existing, runner, applied + [a]);
      } else {
        CompensationLeavesVerified(existing, if a.id in runner.applies then applied + [a] else applied, runner);
      }
    }
  }

  /** What one attempt of a session does, from the journal it finds. */
  function AttemptEvents(actions: seq<Action>, log: seq<Transition>, attempt: Attempt): seq<Event> {
    Until(RunEvents(actions, log, attempt.runner), attempt.cut)
  }

  /** The last attempt of a history starts from the journal that the others have left. */
  lemma {:induction false} HistoryAppend(actions: seq<Action>, log: seq<Transition>, attempts: seq<Attempt>, last: Attempt)
    ensures var before := RecordAll(log, History(actions, log, attempts));
            History(actions, log, attempts + [last]) == History(actions, log, attempts) + AttemptEvents(actions, before, last)
    decreases |attempts|
  {
    if attempts == [] {
      assert ([] + [last])[1..] == [];
      assert History(actions, log, [] + [last]) == AttemptEvents(actions, log, last) + [];
    } else {
      var events := AttemptEvents(actions, log, attempts[0]);
      var log' := RecordAll(log, events);
      assert (attempts + [last])[1..] == attempts[1..] + [last];
      HistoryAppend(actions, log', attempts[1..], last);
      RecordConcat(log, events, History(actions, log', attempts[1..]));
    }
  }

  /** In every session on any journal, each attempt leaves alone all that is verified when it begins: a resume repeats nothing. */
  lemma AttemptLeavesVerified(actions: seq<Action>, log: seq<Transition>, attempts: seq<Attempt>, j: nat)
    requires j < |attempts|
    ensures var earlier := History(actions, log, attempts[..j]);
            var found := RecordAll(log, earlier);
            var events := AttemptEvents(actions, found, attempts[j]);
            History(actions, log, attempts[..j + 1]) == earlier + events && LeavesVerified(found, events)
  {
    var found := RecordAll(log, History(actions, log, attempts[..j]));
    assert attempts[..j + 1] == attempts[..j] + [attempts[j]];
    HistoryAppend(actions, log, attempts[..j], attempts[j]);
    RunLeavesVerified(actions, found, attempts[j].runner, []);
  }
}
