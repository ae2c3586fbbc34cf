/** The setup journal and the execution of a reviewed plan, written as the code updates them. */
module SetupExecution {
  import opened SetupResults
  import opened SetupSaga

  datatype Row = Row(session: string, action: string, state: ActionState)

  datatype OptionalSession = NoSession | Session(id: string)

  datatype ExecutionResult = StalePlan | LockConflict | Executed(results: seq<ActionResult>)

  datatype SetupPlan = SetupPlan(planId: string, snapshotId: string, configRevision: string, actions: seq<Action>)

  /** The rows of one session, in the order they were appended. */
  function SessionLog(rows: seq<Row>, session: string): seq<Transition> {
    if rows == [] then []
    else
      var row := rows[|rows| - 1];
      SessionLog(rows[..|rows| - 1], session) + if row.session == session then [Transition(row.action, row.state)] else []
  }

  lemma SessionLogAppend(rows: seq<Row>, row: Row, session: string)
    ensures SessionLog(rows + [row], session) ==
            SessionLog(rows, session) + if row.session == session then [Transition(row.action, row.state)] else []
  {
    assert (rows + [row])[..|rows|] == rows;
  }

  /** The journal after a trace of one session: its writes are appended. */
  function Journaled(rows: seq<Row>, session: string, events: seq<Event>): seq<Row> {
    if events == [] then rows
    else
      var e := events[|events| - 1];
      var earlier := Journaled(rows, session, events[..|events| - 1]);
      if e.Write? then earlier + [Row(session, e.id, e.state)] else earlier
  }

  lemma JournaledStep(rows: seq<Row>, session: string, events: seq<Event>, e: Event)
    ensures var earlier := Journaled(rows, session, events);
            Journaled(rows, session, events + [e]) == if e.Write? then earlier + [Row(session, e.id, e.state)] else earlier
  {
    assert (events + [e])[..|events|] == events;
  }

  lemma {:induction false} JournaledConcat(rows: seq<Row>, session: string, a: seq<Event>, b: seq<Event>)
    ensures Journaled(rows, session, a + b) == Journaled(Journaled(rows, session, a), session, b)
    decreases |b|
  {
    if b == [] {
      assert a + b == a;
    } else {
      var k := |b| - 1;
      assert a + b == (a + b[..k]) + [b[k]];
      JournaledConcat(rows, session, a, b[..k]);
      JournaledStep(rows, session, a + b[..k], b[k]);
    }
  }

  /** A trace moves its own session's log as the saga says, and no other session's. */
  lemma {:induction false} JournaledLog(rows: seq<Row>, session: string, events: seq<Event>, other: string)
    ensures SessionLog(Journaled(rows, session, events), other) ==
            if other == session then RecordAll(SessionLog(rows, session), events) else SessionLog(rows, other)
    decreases |events|
  {
    if events != [] {
      var k := |events| - 1;
      var e := events[k];
      JournaledLog(rows, session, events[..k], other);
      RecordConcat(SessionLog(rows, session), events[..k], [e]);
      assert events == events[..k] + [e] && [e][1..] == [];
      if e.Write? {
        SessionLogAppend(Journaled(rows, session, events[..k]), Row(session, e.id, e.state), other);
      }
    }
  }

  /** `latest` holds exactly the actions with a row and their last state. */
  ghost predicate IsLatest(log: seq<Transition>, latest: map<string, ActionState>) {
    forall id :: LatestState(log, id) == if id in latest then Latest(latest[id]) else Absent
  }

  lemma LatestStep(rows: seq<Row>, row: Row, session: string, latest: map<string, ActionState>)
    requires IsLatest(SessionLog(rows, session), latest)
    ensures IsLatest(SessionLog(rows + [row], session), if row.session == session then latest[row.action := row.state] else latest)
  {
    var log := SessionLog(rows, session);
    SessionLogAppend(rows, row, session);
    if row.session == session {
      forall id ensures LatestState(log + [Transition(row.action, row.state)], id) ==
                        if row.action == id then Latest(row.state) else LatestState(log, id)
      {
        LatestAppend(log, Transition(row.action, row.state), id);
      }
    } else {
      assert SessionLog(rows + [row], session) == log;
    }
  }

  class SetupJournal {
    var rows: seq<Row>
    var sessions: map<string, string>
    var plans: map<string, SetupPlan>
    var lockOwner: OptionalSession

    constructor ()
      ensures rows == [] && sessions == map[] && plans == map[] && lockOwner == NoSession
    {
      rows, sessions, plans, lockOwner := [], map[], map[], NoSession;
    }

    method SavePlan(plan: SetupPlan)
      modifies this`plans
      ensures plans == old(plans)[plan.planId := plan]
    {
      plans := plans[plan.planId := plan];
    }

    method RecordTransition(session: string, action: string, state: ActionState)
      modifies this`rows
      ensures rows == old(rows) + [Row(session, action, state)]
    {
      rows := rows + [Row(session, action, state)];
    }

    /** The session's plan and the latest state of every action with a row, by overwriting in order; an unknown session is an error. */
    method LoadSession(session: string) returns (found: bool, planId: string, latest: map<string, ActionState>)
      ensures found <==> session in sessions
      ensures found ==> planId == sessions[session] && IsLatest(SessionLog(rows, session), latest)
    {
      planId, latest := "", map[];
      if session !in sessions {
        return false, planId, latest;
      }
      planId := sessions[session];
      ghost var seen: seq<Row> := [];
      for k := 0 to |rows|
        invariant seen == rows[..k]
        invariant IsLatest(SessionLog(seen, session), latest)
      {
        LatestStep(seen, rows[k], session, latest);
        if rows[k].session == session {
          latest := latest[rows[k].action := rows[k].state];
        }
        seen := seen + [rows[k]];
      }
      assert seen == rows;
      found := true;
    }

    /** The single-writer lock: granted when free or already held by the session. */
    method AcquireInstallationLock(session: string) returns (granted: bool)
      modifies this`lockOwner
      ensures granted <==> old(lockOwner) == NoSession || old(lockOwner) == Session(session)
      ensures lockOwner == if granted then Session(session) else old(lockOwner)
    {
      if lockOwner.Session? && lockOwner.id != session {
        return false;
      }
      lockOwner := Session(session);
      granted := true;
    }

    method ReleaseInstallationLock(session: string)
      modifies this`lockOwner
      ensures lockOwner == if old(lockOwner) == Session(session) then NoSession else old(lockOwner)
    {
      if lockOwner == Session(session) {
        lockOwner := NoSession;
      }
    }

    method CreateSession(session: string, planId: string)
      modifies this`sessions
      ensures sessions == if session in old(sessions) then old(sessions) else old(sessions)[session := planId]
    {
      if session !in sessions {
        sessions := sessions[session := planId];
      }
    }
  }

  /** One journal write, noted in the trace. */
  method Log(journal: SetupJournal, session: string, id: string, state: ActionState, ghost start: seq<Row>, ghost events: seq<Event>)
    returns (ghost trace: seq<Event>)
    requires journal.rows == Journaled(start, session, events)
    modifies journal`rows
    ensures trace == events + [Write(id, state)] && journal.rows == Journaled(start, session, trace)
  {
    journal.RecordTransition(session, id, state);
    trace := events + [Write(id, state)];
    JournaledStep(start, session, events, Write(id, state));
  }

  /** Undo one action; a failing or missing compensation asks for manual recovery. */
  method UndoAction(journal: SetupJournal, session: string, action: Action, runner: Runner)
    returns (manual: bool, ghost trace: seq<Event>)
    modifies journal`rows
    ensures trace == Undo(action, runner) && (manual <==> UndoState(action, runner) == ManualRecoveryRequired)
    ensures journal.rows == Journaled(old(journal.rows), session, trace)
  {
    ghost var start := journal.rows;
    if !action.reversible {
      trace := Log(journal, session, action.id, ManualRecoveryRequired, start, []);
      manual := true;
    } else {
      trace := Log(journal, session, action.id, Compensating, start, []);
      trace := Call(start, session, trace, Compensate(action.id));
      manual := action.id !in runner.compensates;
      trace := Log(journal, session, action.id, if manual then ManualRecoveryRequired else Compensated, start, trace);
    }
  }

  /** The first `k` applied actions are still to undo. */
  ghost predicate Undoing(applied: seq<Action>, k: nat, runner: Runner, trace: seq<Event>, manual: set<string>) {
    && k <= |applied|
    && Compensation(applied, runner) == trace + Compensation(applied[..k], runner)
    && manual == ManualRecovery(applied[k..], runner)
  }

  lemma UndoingNext(applied: seq<Action>, k: nat, runner: Runner, trace: seq<Event>, manual: set<string>)
    requires k > 0 && Undoing(applied, k, runner, trace, manual)
    ensures var a := applied[k - 1];
            Undoing(applied, k - 1, runner, trace + Undo(a, runner),
                    if UndoState(a, runner) == ManualRecoveryRequired then manual + {a.id} else manual)
  {
    var a := applied[k - 1];
    assert applied[..k][..k - 1] == applied[..k - 1];
    Regroup(trace, Undo(a, runner), Compensation(applied[..k - 1], runner));
    assert applied[k - 1..] == [a] + applied[k..];
    ManualGrows(applied[k..], a, runner);
  }

  lemma ManualGrows(done: seq<Action>, a: Action, runner: Runner)
    ensures ManualRecovery([a] + done, runner) ==
            ManualRecovery(done, runner) + if UndoState(a, runner) == ManualRecoveryRequired then {a.id} else {}
  {
    assert forall x :: x in [a] + done <==> x == a || x in done;
  }

  /** Undo what this run applied, last first, and name the actions left to a person. */
  method CompensateAll(journal: SetupJournal, session: string, applied: seq<Action>, runner: Runner)
    returns (manual: set<string>, ghost trace: seq<Event>)
    modifies journal`rows
    ensures trace == Compensation(applied, runner) && manual == ManualRecovery(applied, runner)
    ensures journal.rows == Journaled(old(journal.rows), session, trace)
  {
    trace, manual := [], {};
    assert applied[..|applied|] == applied;
    for k := |applied| downto 0
      invariant Undoing(applied, k, runner, trace, manual)
      invariant journal.rows == Journaled(old(journal.rows), session, trace)
    {
      UndoingNext(applied, k + 1, runner, trace, manual);
      var left, undone := UndoAction(journal, session, applied[k], runner);
      JournaledConcat(old(journal.rows), session, trace, undone);
      if left {
        manual := manual + {applied[k].id};
      }
      trace := trace + undone;
    }
    assert applied[0..] == applied;
  }

  function ApplyEvents(a: Action, runner: Runner): seq<Event> {
    if a.id in runner.applies then [Write(a.id, Running), Apply(a.id), Write(a.id, Applied)]
    else [Write(a.id, Running), Apply(a.id)]
  }

  /** Mark one action running, apply it, and mark it applied if that worked. */
  method ApplyAction(journal: SetupJournal, session: string, action: Action, runner: Runner)
    returns (ok: bool, ghost trace: seq<Event>)
    modifies journal`rows
    ensures trace == ApplyEvents(action, runner) && journal.rows == Journaled(old(journal.rows), session, trace)
    ensures ok <==> action.id in runner.applies
  {
    ghost var start := journal.rows;
    trace := Log(journal, session, action.id, Running, start, []);
    trace := Call(start, session, trace, Apply(action.id));
    assert trace == [Write(action.id, Running), Apply(action.id)];
    ok := action.id in runner.applies;
    if ok {
      trace := Log(journal, session, action.id, Applied, start, trace);
    }
  }

  /** A runner call joins the trace and leaves the journal alone. */
  lemma Call(rows: seq<Row>, session: string, events: seq<Event>, e: Event) returns (trace: seq<Event>)
    requires !e.Write?
    ensures trace == events + [e] && Journaled(rows, session, trace) == Journaled(rows, session, events)
  {
    JournaledStep(rows, session, events, e);
    trace := events + [e];
  }

  /** Try one action: apply it, verify it, and record how that ended. */
  method TryAction(journal: SetupJournal, session: string, action: Action, runner: Runner)
    returns (appliedNow: bool, verified: bool, ghost trace: seq<Event>)
    modifies journal`rows
    ensures trace == Try(action, runner) && journal.rows == Journaled(old(journal.rows), session, trace)
    ensures (appliedNow <==> action.id in runner.applies) && verified == Succeeds(action, runner)
  {
    ghost var start := journal.rows;
    appliedNow, trace := ApplyAction(journal, session, action, runner);
    verified := false;
    if appliedNow {
      trace := Call(start, session, trace, Verify(action.id));
      verified := action.id in runner.verifies;
    }
    trace := Log(journal, session, action.id, if verified then Verified else Failed, start, trace);
  }

  /** What is left of the run when `rest` is still to do. */
  ghost predicate Remaining(whole: seq<Event>, trace: seq<Event>, rest: seq<Action>, log: seq<Transition>, runner: Runner, applied: seq<Action>) {
    whole == trace + RunFrom(rest, log, runner, applied)
  }

  lemma RemainingSkip(whole: seq<Event>, trace: seq<Event>, rest: seq<Action>, log: seq<Transition>, runner: Runner, applied: seq<Action>)
    requires rest != [] && Remaining(whole, trace, rest, log, runner, applied) && IsVerified(log, rest[0].id)
    ensures Remaining(whole, trace, rest[1..], log, runner, applied)
  {
  }

  lemma RemainingTry(whole: seq<Event>, trace: seq<Event>, rest: seq<Action>, log: seq<Transition>, runner: Runner, applied: seq<Action>)
    requires rest != [] && Remaining(whole, trace, rest, log, runner, applied) && !IsVerified(log, rest[0].id)
    ensures var a := rest[0];
            if Succeeds(a, runner) then Remaining(whole, trace + Try(a, runner), rest[1..], log, runner, applied + [a])
            else whole == trace + Try(a, runner) + Compensation(if a.id in runner.applies then applied + [a] else applied, runner)
  {
    var a := rest[0];
    var next := if Succeeds(a, runner) then RunFrom(rest[1..], log, runner, applied + [a])
                else Compensation(if a.id in runner.applies then applied + [a] else applied, runner);
    assert RunFrom(rest, log, runner, applied) == Try(a, runner) + next;
    Regroup(trace, Try(a, runner), next);
  }

  lemma Regroup(a: seq<Event>, b: seq<Event>, c: seq<Event>)
    ensures a + (b + c) == (a + b) + c
  {
  }

  /** Run the plan: journal, trace and results are exactly what the saga prescribes for the journal found at the start. */
  method ExecuteLocked(journal: SetupJournal, session: string, actions: seq<Action>, runner: Runner)
    returns (results: seq<ActionResult>, ghost trace: seq<Event>)
    requires session in journal.sessions
    modifies journal`rows
    ensures trace == RunEvents(actions, SessionLog(old(journal.rows), session), runner)
    ensures results == RunResults(actions, SessionLog(old(journal.rows), session), runner)
    ensures journal.rows == Journaled(old(journal.rows), session, trace)
  {
    var _, _, existing := journal.LoadSession(session);
    ghost var log := SessionLog(journal.rows, session);
    ghost var whole, outcome := RunEvents(actions, log, runner), RunResults(actions, log, runner);
    ghost var rest := actions;
    var applied: seq<Action> := [];
    trace, results := [], [];
    for i := 0 to |actions|
      invariant rest == actions[i..]
      invariant Remaining(whole, trace, rest, log, runner, applied)
      invariant outcome == ResultsFrom(rest, log, runner, applied, results)
      invariant journal.rows == Journaled(old(journal.rows), session, trace)
    {
      var action := actions[i];
      assert LatestState(log, action.id) == if action.id in existing then Latest(existing[action.id]) else Absent;
      if action.id in existing && existing[action.id] == Verified {
        RemainingSkip(whole, trace, rest, log, runner, applied);
        results := results + [ActionResult(action.id, Verified)];
      } else {
        RemainingTry(whole, trace, rest, log, runner, applied);
        var appliedNow, verified, tried := TryAction(journal, session, action, runner);
        JournaledConcat(old(journal.rows), session, trace, tried);
        trace := trace + tried;
        if appliedNow {
          applied := applied + [action];
        }
        results := results + [ActionResult(action.id, if verified then Verified else Failed)];
        if !verified {
          var manual, undone := CompensateAll(journal, session, applied, runner);
          JournaledConcat(old(journal.rows), session, trace, undone);
          trace := trace + undone;
          results := Mark(results, manual);
          return;
        }
      }
      rest := rest[1..];
    }
  }

  /** Execute or resume: refuse a stale plan or a held lock without a row or a session; otherwise run and release. */
  method ExecutePlan(journal: SetupJournal, session: string, plan: SetupPlan, snapshotId: string, configRevision: string, runner: Runner)
    returns (result: ExecutionResult, ghost trace: seq<Event>)
    modifies journal
    ensures result.StalePlan? <==> plan.snapshotId != snapshotId || plan.configRevision != configRevision
    ensures !result.StalePlan? ==> (result.LockConflict? <==> old(journal.lockOwner).Session? && old(journal.lockOwner).id != session)
    ensures !result.Executed? ==> journal.rows == old(journal.rows) && journal.lockOwner == old(journal.lockOwner)
    ensures journal.sessions == if result.Executed? && session !in old(journal.sessions) then old(journal.sessions)[session := plan.planId]
                                else old(journal.sessions)
    ensures journal.plans == if result.StalePlan? then old(journal.plans) else old(journal.plans)[plan.planId := plan]
    ensures result.Executed? ==> trace == RunEvents(plan.actions, SessionLog(old(journal.rows), session), runner)
    ensures result.Executed? ==> result.results == RunResults(plan.actions, SessionLog(old(journal.rows), session), runner)
    ensures result.Executed? ==> journal.rows == Journaled(old(journal.rows), session, trace) && journal.lockOwner == NoSession
  {
    trace := [];
    if plan.snapshotId != snapshotId || plan.configRevision != configRevision {
      return StalePlan, trace;
    }
    journal.SavePlan(plan);
    var granted := journal.AcquireInstallationLock(session);
    if !granted {
      return LockConflict, trace;
    }
    journal.CreateSession(session, plan.planId);
    var results;
    results, trace := ExecuteLocked(journal, session, plan.actions, runner);
    journal.ReleaseInstallationLock(session);
    result := Executed(results);
  }

  /** Whatever the journal says, an executed plan leaves the whole plan verified, or exactly what was verified before; other sessions see nothing. */
  lemma ExecutionOutcome(before: seq<Row>, session: string, actions: seq<Action>, runner: Runner)
    requires UniqueIds(actions)
    ensures var found := SessionLog(before, session);
            var rows := Journaled(before, session, RunEvents(actions, found, runner));
            && (forall id :: IsVerified(SessionLog(rows, session), id) <==>
                               IsVerified(found, id) || (GetsThrough(actions, found, runner) && id in Ids(actions)))
            && (forall other :: other != session ==> SessionLog(rows, other) == SessionLog(before, other))
  {
    var found := SessionLog(before, session);
    var events := RunEvents(actions, found, runner);
    JournaledLog(before, session, events, session);
    forall id
      ensures IsVerified(RecordAll(found, events), id) <==> IsVerified(found, id) || (GetsThrough(actions, found, runner) && id in Ids(actions))
    {
      RunRestores(actions, found, runner, id);
    }
    forall other | other != session ensures SessionLog(Journaled(before, session, events), other) == SessionLog(before, other) {
      JournaledLog(before, session, events, other);
    }
  }
}
