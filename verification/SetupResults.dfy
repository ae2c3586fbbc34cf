/** The action results a setup run returns, exactly when they agree with the journal, and what the run leaves verified. */
module SetupResults {
  import opened SetupSaga

  datatype ActionResult = ActionResult(id: string, state: ActionState)

  /** The applied actions that compensation leaves to a person. */
  function ManualRecovery(applied: seq<Action>, runner: Runner): set<string> {
    set a | a in applied && UndoState(a, runner) == ManualRecoveryRequired :: a.id
  }

  /** The state undoing an action ends in. */
  function UndoState(a: Action, runner: Runner): ActionState {
    if a.reversible && a.id in runner.compensates then Compensated else ManualRecoveryRequired
  }

  function Mark(results: seq<ActionResult>, manual: set<string>): seq<ActionResult> {
    seq(|results|, i requires 0 <= i < |results| =>
      if results[i].id in manual then ActionResult(results[i].id, ManualRecoveryRequired) else results[i])
  }

  /** The results of the run from `actions` on, after `results`. */
  function ResultsFrom(actions: seq<Action>, existing: seq<Transition>, runner: Runner, applied: seq<Action>, results: seq<ActionResult>)
    : seq<ActionResult>
    decreases |actions|
  {
    if actions == [] then results
    else
      var a := actions[0];
      if IsVerified(existing, a.id) then
        ResultsFrom(actions[1..], existing, runner, applied, results + [ActionResult(a.id, Verified)])
      else if Succeeds(a, runner) then
        ResultsFrom(actions[1..], existing, runner, applied + [a], results + [ActionResult(a.id, Verified)])
      else
        var undone := if a.id in runner.applies then applied + [a] else applied;
        Mark(results + [ActionResult(a.id, Failed)], ManualRecovery(undone, runner))
  }

  function RunResults(actions: seq<Action>, log: seq<Transition>, runner: Runner): seq<ActionResult> {
    ResultsFrom(actions, log, runner, [], [])
  }

  /** What the run from `actions` on undoes: all it has applied by its first action that is neither verified nor succeeds. */
  function UndoneBy(actions: seq<Action>, existing: seq<Transition>, runner: Runner, applied: seq<Action>): seq<Action>
    decreases |actions|
  {
    if actions == [] then []
    else
      var a := actions[0];
      if IsVerified(existing, a.id) then UndoneBy(actions[1..], existing, runner, applied)
      else if Succeeds(a, runner) then UndoneBy(actions[1..], existing, runner, applied + [a])
      else if a.id in runner.applies then applied + [a]
      else applied
  }

  /** One of these actions has the identifier, and undoing it works. */
  ghost predicate RolledBack(undone: seq<Action>, runner: Runner, id: string) {
    exists a :: a in undone && a.id == id && UndoState(a, runner) == Compensated
  }

  /** Nothing stops the run: every action is verified already or succeeds. */
  ghost predicate GetsThrough(actions: seq<Action>, existing: seq<Transition>, runner: Runner) {
    forall a :: a in actions ==> IsVerified(existing, a.id) || Succeeds(a, runner)
  }

  /** The first action at which the run stops. */
  ghost predicate FailsAt(actions: seq<Action>, existing: seq<Transition>, runner: Runner, i: nat) {
    && i < |actions| && !IsVerified(existing, actions[i].id) && !Succeeds(actions[i], runner)
    && forall k :: 0 <= k < i ==> IsVerified(existing, actions[k].id) || Succeeds(actions[k], runner)
  }

  /** A run that stops at `i` undoes exactly what it was asked to apply and could, up to `i`. */
  lemma {:induction false} UndoneUpTo(actions: seq<Action>, existing: seq<Transition>, runner: Runner, applied: seq<Action>, i: nat, a: Action)
    requires FailsAt(actions, existing, runner, i)
    ensures a in UndoneBy(actions, existing, runner, applied) <==>
            a in applied || (a in actions[..i + 1] && !IsVerified(existing, a.id) && a.id in runner.applies)
  {
    var first := actions[0];
    assert actions[..i + 1] == [first] + actions[1..i + 1];
    if i > 0 {
      assert actions[1..][..i] == actions[1..i + 1];
      assert forall k :: 0 <= k < i - 1 ==> actions[1..][k] == actions[k + 1];
      UndoneUpTo(actions[1..], existing, runner, if IsVerified(existing, first.id) then applied else applied + [first], i - 1, a);
    } else {
      assert actions[1..1] == [];
    }
  }

  /** A run that gets through undoes nothing. */
  lemma {:induction false} NothingUndone(actions: seq<Action>, existing: seq<Transition>, runner: Runner, applied: seq<Action>)
    requires GetsThrough(actions, existing, runner)
    ensures UndoneBy(actions, existing, runner, applied) == []
  {
    if actions != [] {
      assert actions[0] in actions && forall a :: a in actions[1..] ==> a in actions;
      NothingUndone(actions[1..], existing, runner, if IsVerified(existing, actions[0].id) then applied else applied + [actions[0]]);
    }
  }

  // ----- The states a run leaves in the journal -----

  /** One event, seen by one action's latest state, in front of the rest. */
  lemma EventThen(log: seq<Transition>, e: Event, rest: seq<Event>, id: string)
    ensures RecordAll(log, [e] + rest) == RecordAll(Record(log, e), rest)
    ensures LatestState(Record(log, e), id) == if e.Write? && e.id == id then Latest(e.state) else LatestState(log, id)
  {
    assert ([e] + rest)[1..] == rest;
    if e.Write? { LatestAppend(log, Transition(e.id, e.state), id); }
  }

  lemma UndoLeaves(log: seq<Transition>, a: Action, runner: Runner, id: string)
    ensures LatestState(RecordAll(log, Undo(a, runner)), id) ==
            if a.id == id then Latest(UndoState(a, runner)) else LatestState(log, id)
  {
    var last := Write(a.id, UndoState(a, runner));
    if !a.reversible {
      EventThen(log, last, [], id);
      assert Undo(a, runner) == [last] + [];
    } else {
      var first, call := Write(a.id, Compensating), Compensate(a.id);
      var l1 := Record(log, first);
      EventThen(log, first, [call] + ([last] + []), id);
      EventThen(l1, call, [last] + [], id);
      EventThen(l1, last, [], id);
      assert Undo(a, runner) == [first] + ([call] + ([last] + []));
    }
  }

  /** The latest state after the compensation of `applied`. */
  ghost predicate CompensatedStates(log: seq<Transition>, log': seq<Transition>, applied: seq<Action>, runner: Runner) {
    && (forall a :: a in applied ==> LatestState(log', a.id) == Latest(UndoState(a, runner)))
    && (forall id :: (forall a :: a in applied ==> a.id != id) ==> LatestState(log', id) == LatestState(log, id))
  }

  ghost predicate NamedOnce(actions: seq<Action>) {
    forall a, b :: a in actions && b in actions && a.id == b.id ==> a == b
  }

  lemma {:induction false} CompensationLeaves(log: seq<Transition>, applied: seq<Action>, runner: Runner)
    requires NamedOnce(applied)
    ensures CompensatedStates(log, RecordAll(log, Compensation(applied, runner)), applied, runner)
    decreases |applied|
  {
    if applied != [] {
      var rest, last := applied[..|applied| - 1], applied[|applied| - 1];
      var log1 := RecordAll(log, Undo(last, runner));
      assert applied == rest + [last];
      CompensationLeaves(log1, rest, runner);
      RecordConcat(log, Undo(last, runner), Compensation(rest, runner));
      forall id ensures LatestState(log1, id) == if last.id == id then Latest(UndoState(last, runner)) else LatestState(log, id) {
        UndoLeaves(log, last, runner, id);
      }
      UndoneBefore(log, log1, RecordAll(log1, Compensation(rest, runner)), rest, last, runner);
    }
  }

  lemma UndoneBefore(log: seq<Transition>, log1: seq<Transition>, log2: seq<Transition>, rest: seq<Action>, last: Action, runner: Runner)
    requires NamedOnce(rest + [last]) && CompensatedStates(log1, log2, rest, runner)
    requires forall id :: LatestState(log1, id) == if last.id == id then Latest(UndoState(last, runner)) else LatestState(log, id)
    ensures CompensatedStates(log, log2, rest + [last], runner)
  {
    forall a | a in rest + [last] ensures LatestState(log2, a.id) == Latest(UndoState(a, runner)) {
      if b :| b in rest && b.id == a.id {
        assert b in rest + [last];
      } else {
        assert a == last;
      }
    }
    forall id | forall a :: a in rest + [last] ==> a.id != id ensures LatestState(log2, id) == LatestState(log, id) {
      assert last in rest + [last];
      forall a | a in rest ensures a.id != id { assert a in rest + [last]; }
    }
  }

  lemma TryLeaves(log: seq<Transition>, a: Action, runner: Runner, id: string)
    ensures LatestState(RecordAll(log, Try(a, runner)), id) ==
            if a.id == id then Latest(if Succeeds(a, runner) then Verified else Failed) else LatestState(log, id)
  {
    var running, call := Write(a.id, Running), Apply(a.id);
    var last := Write(a.id, if Succeeds(a, runner) then Verified else Failed);
    var l1 := Record(log, running);
    if a.id !in runner.applies {
      EventThen(log, running, [call] + ([last] + []), id);
      EventThen(l1, call, [last] + [], id);
      EventThen(l1, last, [], id);
      assert Try(a, runner) == [running] + ([call] + ([last] + []));
    } else {
      var done, check := Write(a.id, Applied), Verify(a.id);
      var l2 := Record(l1, done);
      EventThen(log, running, [call] + ([done] + ([check] + ([last] + []))), id);
      EventThen(l1, call, [done] + ([check] + ([last] + [])), id);
      EventThen(l1, done, [check] + ([last] + []), id);
      EventThen(l2, check, [last] + [], id);
      EventThen(l2, last, [], id);
      assert Try(a, runner) == [running] + ([call] + ([done] + ([check] + ([last] + []))));
    }
  }

  // ----- Agreement -----

  /** The journal's latest state is the returned one, unless the run undid the action: then it is "compensated". */
  ghost predicate Reported(r: ActionResult, log: seq<Transition>, undone: seq<Action>, runner: Runner) {
    && (r.state.Verified? || r.state.Failed? || r.state.ManualRecoveryRequired?)
    && LatestState(log, r.id) == Latest(if RolledBack(undone, runner, r.id) then Compensated else r.state)
  }

  /** Before a failure: one verified result for each of the first `i` actions, as in the journal; the rest untouched. */
  ghost predicate Halfway(actions: seq<Action>, existing: seq<Transition>, log: seq<Transition>, applied: seq<Action>, results: seq<ActionResult>, i: nat) {
    && i <= |actions| && |results| == i
    && (forall k :: 0 <= k < i ==> results[k] == ActionResult(actions[k].id, Verified) && LatestState(log, actions[k].id) == Latest(Verified))
    && (forall k :: i <= k < |actions| ==> LatestState(log, actions[k].id) == LatestState(existing, actions[k].id))
    && (forall a :: a in applied ==> a in actions[..i])
  }

  lemma HalfwayNext(actions: seq<Action>, existing: seq<Transition>, log: seq<Transition>, log': seq<Transition>, applied: seq<Action>,
                    applied': seq<Action>, results: seq<ActionResult>, i: nat)
    requires UniqueIds(actions) && Halfway(actions, existing, log, applied, results, i) && i < |actions|
    requires applied' == applied || applied' == applied + [actions[i]]
    requires forall id :: LatestState(log', id) == if actions[i].id == id then Latest(Verified) else LatestState(log, id)
    ensures Halfway(actions, existing, log', applied', results + [ActionResult(actions[i].id, Verified)], i + 1)
  {
    assert actions[..i + 1] == actions[..i] + [actions[i]];
    forall k | 0 <= k < |actions| && k != i ensures actions[k].id != actions[i].id {
      assert k < i ==> actions[k].id != actions[i].id;
      assert i < k ==> actions[i].id != actions[k].id;
    }
  }

  lemma UniqueNamedOnce(actions: seq<Action>, part: seq<Action>)
    requires UniqueIds(actions) && forall a :: a in part ==> a in actions
    ensures NamedOnce(part)
  {
    forall a, b | a in part && b in part && a.id == b.id ensures a == b {
      var i :| 0 <= i < |actions| && actions[i] == a;
      var j :| 0 <= j < |actions| && actions[j] == b;
    }
  }

  /** The failing action and the compensation. */
  lemma FailureReported(actions: seq<Action>, existing: seq<Transition>, log: seq<Transition>, runner: Runner, applied: seq<Action>,
                        results: seq<ActionResult>, i: nat, k: nat)
    requires UniqueIds(actions) && Halfway(actions, existing, log, applied, results, i) && k <= i < |actions|
    requires !Succeeds(actions[i], runner)
    ensures var undone := if actions[i].id in runner.applies then applied + [actions[i]] else applied;
            Reported(Mark(results + [ActionResult(actions[i].id, Failed)], ManualRecovery(undone, runner))[k],
                     RecordAll(RecordAll(log, Try(actions[i], runner)), Compensation(undone, runner)), undone, runner)
  {
    var undone := if actions[i].id in runner.applies then applied + [actions[i]] else applied;
    var log1 := RecordAll(log, Try(actions[i], runner));
    var id := actions[k].id;
    assert forall a :: a in actions[..i] ==> a in actions;
    UniqueNamedOnce(actions, undone);
    CompensationLeaves(log1, undone, runner);
    TryLeaves(log, actions[i], runner, id);
    var r := Mark(results + [ActionResult(actions[i].id, Failed)], ManualRecovery(undone, runner))[k];
    assert r.id == id;
    if a :| a in undone && a.id == id {
      assert id in ManualRecovery(undone, runner) <==> UndoState(a, runner) == ManualRecoveryRequired;
      assert RolledBack(undone, runner, id) <==> UndoState(a, runner) == Compensated;
    }
  }

  lemma {:induction false} ResultsReported(actions: seq<Action>, existing: seq<Transition>, log: seq<Transition>, runner: Runner,
                                           applied: seq<Action>, results: seq<ActionResult>, i: nat)
    requires UniqueIds(actions) && Halfway(actions, existing, log, applied, results, i)
    ensures forall r :: r in ResultsFrom(actions[i..], existing, runner, applied, results) ==>
                          Reported(r, RecordAll(log, RunFrom(actions[i..], existing, runner, applied)),
                                   UndoneBy(actions[i..], existing, runner, applied), runner)
    decreases |actions| - i
  {
    if i < |actions| {
      var a := actions[i];
      assert actions[i..][0] == a && actions[i..][1..] == actions[i + 1..];
      if IsVerified(existing, a.id) {
        HalfwayNext(actions, existing, log, log, applied, applied, results, i);
        ResultsReported(actions, existing, log, runner, applied, results + [ActionResult(a.id, Verified)], i + 1);
      } else if Succeeds(a, runner) {
        var log' := RecordAll(log, Try(a, runner));
        forall id ensures LatestState(log', id) == if a.id == id then Latest(Verified) else LatestState(log, id) {
          TryLeaves(log, a, runner, id);
        }
        HalfwayNext(actions, existing, log, log', applied, applied + [a], results, i);
        ResultsReported(actions, existing, log', runner, applied + [a], results + [ActionResult(a.id, Verified)], i + 1);
        RecordConcat(log, Try(a, runner), RunFrom(actions[i + 1..], existing, runner, applied + [a]));
      } else {
        FailedRunReported(actions, existing, log, runner, applied, results, i);
      }
    }
  }

  lemma FailedRunReported(actions: seq<Action>, existing: seq<Transition>, log: seq<Transition>, runner: Runner,
                          applied: seq<Action>, results: seq<ActionResult>, i: nat)
    requires UniqueIds(actions) && Halfway(actions, existing, log, applied, results, i) && i < |actions|
    requires !IsVerified(existing, actions[i].id) && !Succeeds(actions[i], runner)
    ensures forall r :: r in ResultsFrom(actions[i..], existing, runner, applied, results) ==>
                          Reported(r, RecordAll(log, RunFrom(actions[i..], existing, runner, applied)),
                                   UndoneBy(actions[i..], existing, runner, applied), runner)
  {
    var a := actions[i];
    assert actions[i..][0] == a;
    var undone := if a.id in runner.applies then applied + [a] else applied;
    RecordConcat(log, Try(a, runner), Compensation(undone, runner));
    forall k | 0 <= k <= i
      ensures Reported(Mark(results + [ActionResult(a.id, Failed)], ManualRecovery(undone, runner))[k],
                       RecordAll(RecordAll(log, Try(a, runner)), Compensation(undone, runner)), undone, runner)
    {
      FailureReported(actions, existing, log, runner, applied, results, i, k);
    }
  }

  /** What the run undoes, from plan, journal and runner answers alone. */
  function Undone(actions: seq<Action>, log: seq<Transition>, runner: Runner): seq<Action> {
    UndoneBy(actions, log, runner, [])
  }

  /** The returned result is the journal's latest state. */
  ghost predicate Agrees(r: ActionResult, log: seq<Transition>) {
    LatestState(log, r.id) == Latest(r.state)
  }

  /** A returned result agrees with the journal exactly if the action is not among those the run undoes with success. */
  lemma ResultsAgree(actions: seq<Action>, log: seq<Transition>, runner: Runner, r: ActionResult)
    requires UniqueIds(actions) && r in RunResults(actions, log, runner)
    ensures var after := RecordAll(log, RunEvents(actions, log, runner));
            && (Agrees(r, after) <==> !RolledBack(Undone(actions, log, runner), runner, r.id))
            && (RolledBack(Undone(actions, log, runner), runner, r.id) ==> LatestState(after, r.id) == Latest(Compensated))
  {
    assert actions[0..] == actions;
    ResultsReported(actions, log, log, runner, [], [], 0);
    assert Reported(r, RecordAll(log, RunEvents(actions, log, runner)), Undone(actions, log, runner), runner);
  }

  /** `results` speaks of every action in `actions`. */
  ghost predicate SpeaksOf(results: seq<ActionResult>, actions: seq<Action>) {
    forall a :: a in actions ==> exists r :: r in results && r.id == a.id
  }

  lemma SpeaksOfMore(results: seq<ActionResult>, applied: seq<Action>, a: Action, state: ActionState)
    requires SpeaksOf(results, applied)
    ensures SpeaksOf(results + [ActionResult(a.id, state)], applied) && SpeaksOf(results + [ActionResult(a.id, state)], applied + [a])
  {
    var more := results + [ActionResult(a.id, state)];
    assert ActionResult(a.id, state) in more;
    forall b | b in applied + [a] ensures exists r :: r in more && r.id == b.id {
      if b in applied {
        var r :| r in results && r.id == b.id;
        assert r in more;
      }
    }
    assert forall b :: b in applied ==> b in applied + [a];
  }

  lemma SpeaksOfMarked(results: seq<ActionResult>, actions: seq<Action>, manual: set<string>)
    requires SpeaksOf(results, actions)
    ensures SpeaksOf(Mark(results, manual), actions)
  {
    forall a | a in actions ensures exists r :: r in Mark(results, manual) && r.id == a.id {
      var r :| r in results && r.id == a.id;
      var i :| 0 <= i < |results| && results[i] == r;
      assert Mark(results, manual)[i] in Mark(results, manual);
    }
  }

  /** Whatever a run undoes has a result. */
  lemma {:induction false} UndoneHasResult(actions: seq<Action>, existing: seq<Transition>, runner: Runner, applied: seq<Action>, results: seq<ActionResult>)
    requires SpeaksOf(results, applied)
    ensures SpeaksOf(ResultsFrom(actions, existing, runner, applied, results), UndoneBy(actions, existing, runner, applied))
    decreases |actions|
  {
    if actions != [] {
      var a := actions[0];
      if IsVerified(existing, a.id) {
        SpeaksOfMore(results, applied, a, Verified);
        UndoneHasResult(actions[1..], existing, runner, applied, results + [ActionResult(a.id, Verified)]);
      } else if Succeeds(a, runner) {
        SpeaksOfMore(results, applied, a, Verified);
        UndoneHasResult(actions[1..], existing, runner, applied + [a], results + [ActionResult(a.id, Verified)]);
      } else {
        SpeaksOfMore(results, applied, a, Failed);
        var undone := if a.id in runner.applies then applied + [a] else applied;
        SpeaksOfMarked(results + [ActionResult(a.id, Failed)], undone, ManualRecovery(undone, runner));
      }
    }
  }

  /** All results of a run agree with the journal exactly if no action the run undoes is reversible with a working compensation. */
  lemma AllAgree(actions: seq<Action>, log: seq<Transition>, runner: Runner)
    requires UniqueIds(actions)
    ensures (forall r :: r in RunResults(actions, log, runner) ==> Agrees(r, RecordAll(log, RunEvents(actions, log, runner)))) <==>
            (forall a :: a in Undone(actions, log, runner) ==> !a.reversible || a.id !in runner.compensates)
  {
    var undone := Undone(actions, log, runner);
    forall r | r in RunResults(actions, log, runner)
      ensures Agrees(r, RecordAll(log, RunEvents(actions, log, runner))) <==> !RolledBack(undone, runner, r.id)
    {
      ResultsAgree(actions, log, runner, r);
    }
    UndoneHasResult(actions, log, runner, [], []);
    forall a | a in undone && a.reversible && a.id in runner.compensates
      ensures exists r :: r in RunResults(actions, log, runner) && RolledBack(undone, runner, r.id)
    {
      var r :| r in RunResults(actions, log, runner) && r.id == a.id;
      assert RolledBack(undone, runner, r.id);
    }
  }

  /** One action that applies, fails to verify and is compensated: the run returns FAILED, the journal says COMPENSATED. */
  lemma FailedExample()
    ensures var actions, runner := [Action("a", true, [])], Runner({"a"}, {}, {"a"});
            && RunResults(actions, [], runner) == [ActionResult("a", Failed)]
            && LatestState(RecordAll([], RunEvents(actions, [], runner)), "a") == Latest(Compensated)
  {
    var a, runner := Action("a", true, []), Runner({"a"}, {}, {"a"});
    assert Undone([a], [], runner) == [a];
    assert a in Undone([a], [], runner);
    assert [a][1..] == [];
    var r := ActionResult("a", Failed);
    assert ManualRecovery([a], runner) == {};
    assert RunResults([a], [], runner) == Mark([r], {}) == [r];
    ResultsAgree([a], [], runner, r);
  }

  /** A verified action before one that cannot be applied: the run returns VERIFIED, the journal says COMPENSATED. */
  lemma VerifiedExample()
    ensures var actions, runner := [Action("a", true, []), Action("b", true, ["a"])], Runner({"a"}, {"a"}, {"a"});
            && RunResults(actions, [], runner) == [ActionResult("a", Verified), ActionResult("b", Failed)]
            && LatestState(RecordAll([], RunEvents(actions, [], runner)), "a") == Latest(Compensated)
  {
    var a, b, runner := Action("a", true, []), Action("b", true, ["a"]), Runner({"a"}, {"a"}, {"a"});
    var v, f := ActionResult("a", Verified), ActionResult("b", Failed);
    assert [a, b][1..] == [b] && [] + [a] == [a] && [] + [v] == [v];
    assert Undone([a, b], [], runner) == UndoneBy([b], [], runner, [a]) == [a];
    assert a in Undone([a, b], [], runner);
    assert ManualRecovery([a], runner) == {};
    assert RunResults([a, b], [], runner) == ResultsFrom([b], [], runner, [a], [v]) == Mark([v] + [f], {}) == [v, f];
    assert v in RunResults([a, b], [], runner);
    ResultsAgree([a, b], [], runner, v);
  }

  // ----- Which calls a run makes, and what it returns -----

  /** The action at `i` is not verified, and all before it are or succeed: the run comes to it. */
  ghost predicate AppliedAt(actions: seq<Action>, existing: seq<Transition>, runner: Runner, i: int) {
    && 0 <= i < |actions| && !IsVerified(existing, actions[i].id)
    && forall k :: 0 <= k < i ==> IsVerified(existing, actions[k].id) || (actions[k].id in runner.applies && actions[k].id in runner.verifies)
  }

  ghost predicate IsApplied(actions: seq<Action>, existing: seq<Transition>, runner: Runner, id: string) {
    exists i :: AppliedAt(actions, existing, runner, i) && actions[i].id == id
  }

  lemma AppliedLater(actions: seq<Action>, existing: seq<Transition>, runner: Runner, i: nat)
    requires actions != []
    ensures AppliedAt(actions, existing, runner, i + 1) <==>
            (IsVerified(existing, actions[0].id) || Succeeds(actions[0], runner)) && AppliedAt(actions[1..], existing, runner, i)
  {
    assert forall k :: 0 <= k < |actions| - 1 ==> actions[1..][k] == actions[k + 1];
    if AppliedAt(actions[1..], existing, runner, i) && (IsVerified(existing, actions[0].id) || Succeeds(actions[0], runner)) {
      forall k | 0 <= k < i + 1
        ensures IsVerified(existing, actions[k].id) || (actions[k].id in runner.applies && actions[k].id in runner.verifies)
      {
        if k > 0 { assert actions[1..][k - 1] == actions[k]; }
      }
    }
  }

  lemma AppliedFirst(actions: seq<Action>, existing: seq<Transition>, runner: Runner, id: string)
    requires actions != []
    ensures IsApplied(actions, existing, runner, id) <==>
            || (actions[0].id == id && !IsVerified(existing, id))
            || ((IsVerified(existing, actions[0].id) || Succeeds(actions[0], runner)) && IsApplied(actions[1..], existing, runner, id))
  {
    if i :| AppliedAt(actions, existing, runner, i) && actions[i].id == id && i > 0 {
      AppliedLater(actions, existing, runner, i - 1);
      assert actions[1..][i - 1] == actions[i];
    }
    if actions[0].id == id && !IsVerified(existing, id) {
      assert AppliedAt(actions, existing, runner, 0);
    }
    if i :| AppliedAt(actions[1..], existing, runner, i) && actions[1..][i].id == id {
      AppliedLater(actions, existing, runner, i);
      assert actions[1..][i] == actions[i + 1];
    }
  }

  lemma {:induction false} CompensationAppliesNothing(applied: seq<Action>, runner: Runner, id: string)
    ensures Apply(id) !in Compensation(applied, runner)
    ensures Compensate(id) in Compensation(applied, runner) <==> exists a :: a in applied && a.id == id && a.reversible
  {
    if applied != [] {
      var last, rest := applied[|applied| - 1], applied[..|applied| - 1];
      assert applied == rest + [last];
      CompensationAppliesNothing(rest, runner, id);
    }
  }

  lemma TryCalls(a: Action, runner: Runner, id: string)
    ensures Apply(id) in Try(a, runner) <==> a.id == id
    ensures Compensate(id) !in Try(a, runner)
  {
    assert Apply(a.id) == Try(a, runner)[1];
  }

  /** A run applies exactly what is not verified, up to and including the first action that does not succeed. */
  lemma {:induction false} AppliesExactly(actions: seq<Action>, existing: seq<Transition>, runner: Runner, applied: seq<Action>, id: string)
    ensures Apply(id) in RunFrom(actions, existing, runner, applied) <==> IsApplied(actions, existing, runner, id)
    decreases |actions|
  {
    if actions != [] {
      var a := actions[0];
      AppliedFirst(actions, existing, runner, id);
      TryCalls(a, runner, id);
      if IsVerified(existing, a.id) {
        AppliesExactly(actions[1..], existing, runner, applied, id);
      } else if Succeeds(a, runner) {
        AppliesExactly(actions[1..], existing, runner, applied + [a], id);
      } else {
        CompensationAppliesNothing(if a.id in runner.applies then applied + [a] else applied, runner, id);
      }
    }
  }

  /** A run compensates exactly the reversible actions among those it undoes. */
  lemma {:induction false} CompensatesExactly(actions: seq<Action>, existing: seq<Transition>, runner: Runner, applied: seq<Action>, id: string)
    ensures Compensate(id) in RunFrom(actions, existing, runner, applied) <==>
            exists a :: a in UndoneBy(actions, existing, runner, applied) && a.id == id && a.reversible
    decreases |actions|
  {
    if actions != [] {
      var a := actions[0];
      TryCalls(a, runner, id);
      if IsVerified(existing, a.id) {
        CompensatesExactly(actions[1..], existing, runner, applied, id);
      } else if Succeeds(a, runner) {
        CompensatesExactly(actions[1..], existing, runner, applied + [a], id);
      } else {
        CompensationAppliesNothing(if a.id in runner.applies then applied + [a] else applied, runner, id);
      }
    }
  }

  /** The results of a run that stops at `i`, before compensation. */
  function ResultsUpTo(actions: seq<Action>, i: nat): seq<ActionResult>
    requires i < |actions|
  {
    seq(i + 1, k requires 0 <= k < i + 1 => ActionResult(actions[k].id, if k == i then Failed else Verified))
  }

  lemma {:induction false} StoppedResults(actions: seq<Action>, existing: seq<Transition>, runner: Runner, applied: seq<Action>,
                                          results: seq<ActionResult>, i: nat)
    requires FailsAt(actions, existing, runner, i)
    ensures ResultsFrom(actions, existing, runner, applied, results) ==
            Mark(results + ResultsUpTo(actions, i), ManualRecovery(UndoneBy(actions, existing, runner, applied), runner))
    decreases |actions|
  {
    var a := actions[0];
    if i == 0 {
      assert ResultsUpTo(actions, 0) == [ActionResult(a.id, Failed)];
    } else {
      var first := ActionResult(a.id, Verified);
      assert forall k :: 0 <= k < i - 1 ==> actions[1..][k] == actions[k + 1];
      StoppedResults(actions[1..], existing, runner, if IsVerified(existing, a.id) then applied else applied + [a], results + [first], i - 1);
      assert results + ResultsUpTo(actions, i) == results + [first] + ResultsUpTo(actions[1..], i - 1);
    }
  }

  /** The state returned for position `k` by a run that stops at `i`. */
  function ResultState(actions: seq<Action>, existing: seq<Transition>, runner: Runner, i: nat, k: nat): ActionState
    requires k < |actions|
  {
    var a := actions[k];
    if !IsVerified(existing, a.id) && a.id in runner.applies && !(a.reversible && a.id in runner.compensates) then ManualRecoveryRequired
    else if k == i then Failed
    else Verified
  }

  /** A run that stops at `i` returns, in plan order, one result for each action up to `i`. */
  lemma ResultsOfFailure(actions: seq<Action>, log: seq<Transition>, runner: Runner, i: nat, k: nat)
    requires UniqueIds(actions) && FailsAt(actions, log, runner, i) && k <= i
    ensures |RunResults(actions, log, runner)| == i + 1
    ensures RunResults(actions, log, runner)[k] == ActionResult(actions[k].id, ResultState(actions, log, runner, i, k))
  {
    StoppedResults(actions, log, runner, [], [], i);
    var undone, a := Undone(actions, log, runner), actions[k];
    assert [] + ResultsUpTo(actions, i) == ResultsUpTo(actions, i);
    assert a in actions[..i + 1] by { assert actions[..i + 1][k] == a; }
    UndoneUpTo(actions, log, runner, [], i, a);
    forall b | b in undone && b.id == a.id ensures b == a {
      UndoneUpTo(actions, log, runner, [], i, b);
      var n :| 0 <= n < |actions| && actions[n] == b;
    }
  }

  /** A run that gets through returns VERIFIED for every action, in plan order. */
  lemma {:induction false} ResultsOfSuccess(actions: seq<Action>, existing: seq<Transition>, runner: Runner, applied: seq<Action>, results: seq<ActionResult>)
    requires GetsThrough(actions, existing, runner)
    ensures ResultsFrom(actions, existing, runner, applied, results) ==
            results + seq(|actions|, k requires 0 <= k < |actions| => ActionResult(actions[k].id, Verified))
    decreases |actions|
  {
    if actions != [] {
      var a := actions[0];
      assert a in actions && forall b :: b in actions[1..] ==> b in actions;
      ResultsOfSuccess(actions[1..], existing, runner, if IsVerified(existing, a.id) then applied else applied + [a],
                       results + [ActionResult(a.id, Verified)]);
    }
  }

  // ----- What a run leaves verified, whatever the journal said before -----

  /** Verified so far: what was verified before and what the run has applied. */
  ghost predicate Reached(actions: seq<Action>, existing: seq<Transition>, log: seq<Transition>, applied: seq<Action>, i: nat) {
    && i <= |actions|
    && (forall id :: IsVerified(log, id) <==> IsVerified(existing, id) || id in Ids(applied))
    && (forall a :: a in applied ==> a in actions && !IsVerified(existing, a.id))
    && (forall k :: 0 <= k < i ==> IsVerified(log, actions[k].id))
  }

  lemma ReachedNext(actions: seq<Action>, existing: seq<Transition>, log: seq<Transition>, applied: seq<Action>, i: nat, runner: Runner)
    requires Reached(actions, existing, log, applied, i) && i < |actions|
    requires !IsVerified(existing, actions[i].id) && Succeeds(actions[i], runner)
    ensures Reached(actions, existing, RecordAll(log, Try(actions[i], runner)), applied + [actions[i]], i + 1)
  {
    var a := actions[i];
    var log' := RecordAll(log, Try(a, runner));
    forall id ensures IsVerified(log', id) <==> a.id == id || IsVerified(log, id) { TryLeaves(log, a, runner, id); }
    IdsAppend(applied, a);
  }

  /** A failing attempt and the compensation leave verified exactly what was so before the run. */
  lemma FailureRestores(actions: seq<Action>, existing: seq<Transition>, log: seq<Transition>, applied: seq<Action>, i: nat, runner: Runner, id: string)
    requires UniqueIds(actions) && Reached(actions, existing, log, applied, i) && i < |actions|
    requires !IsVerified(existing, actions[i].id) && !Succeeds(actions[i], runner)
    ensures var undone := if actions[i].id in runner.applies then applied + [actions[i]] else applied;
            IsVerified(RecordAll(RecordAll(log, Try(actions[i], runner)), Compensation(undone, runner)), id) <==> IsVerified(existing, id)
  {
    var a := actions[i];
    var undone := if a.id in runner.applies then applied + [a] else applied;
    UniqueNamedOnce(actions, undone);
    TryLeaves(log, a, runner, id);
    CompensationLeaves(RecordAll(log, Try(a, runner)), undone, runner);
    IdsAppend(applied, a);
    if b :| b in undone && b.id == id {
      assert b in applied || b == a;
    } else {
      assert id !in Ids(applied);
    }
  }

  lemma {:induction false} RestoresFrom(actions: seq<Action>, existing: seq<Transition>, log: seq<Transition>, runner: Runner,
                                        applied: seq<Action>, i: nat, id: string)
    requires UniqueIds(actions) && Reached(actions, existing, log, applied, i)
    ensures IsVerified(RecordAll(log, RunFrom(actions[i..], existing, runner, applied)), id) <==>
            IsVerified(existing, id) || (GetsThrough(actions[i..], existing, runner) && id in Ids(actions))
    decreases |actions| - i
  {
    if i == |actions| {
      VerifiedAll(actions, log, applied, id);
    } else {
      var a := actions[i];
      assert actions[i..] == [a] + actions[i + 1..];
      assert GetsThrough(actions[i..], existing, runner) <==>
             (IsVerified(existing, a.id) || Succeeds(a, runner)) && GetsThrough(actions[i + 1..], existing, runner) by {
        ThroughFirst(a, actions[i + 1..], existing, runner);
      }
      if IsVerified(existing, a.id) {
        RestoresFrom(actions, existing, log, runner, applied, i + 1, id);
      } else if Succeeds(a, runner) {
        ReachedNext(actions, existing, log, applied, i, runner);
        RestoresFrom(actions, existing, RecordAll(log, Try(a, runner)), runner, applied + [a], i + 1, id);
        RecordConcat(log, Try(a, runner), RunFrom(actions[i + 1..], existing, runner, applied + [a]));
      } else {
        FailureRestores(actions, existing, log, applied, i, runner, id);
        RecordConcat(log, Try(a, runner), Compensation(if a.id in runner.applies then applied + [a] else applied, runner));
      }
    }
  }

  lemma ThroughFirst(a: Action, rest: seq<Action>, existing: seq<Transition>, runner: Runner)
    ensures GetsThrough([a] + rest, existing, runner) <==>
            (IsVerified(existing, a.id) || Succeeds(a, runner)) && GetsThrough(rest, existing, runner)
  {
    assert forall x :: x in [a] + rest <==> x == a || x in rest;
  }

  lemma VerifiedAll(actions: seq<Action>, log: seq<Transition>, applied: seq<Action>, id: string)
    requires (forall a :: a in applied ==> a in actions) && forall k :: 0 <= k < |actions| ==> IsVerified(log, actions[k].id)
    ensures id in Ids(applied) ==> id in Ids(actions)
    ensures id in Ids(actions) ==> IsVerified(log, id)
  {
  }

  /** From any journal, an uninterrupted run verifies the whole plan if it gets through; otherwise it leaves exactly the verified set it found. */
  lemma RunRestores(actions: seq<Action>, log: seq<Transition>, runner: Runner, id: string)
    requires UniqueIds(actions)
    ensures IsVerified(RecordAll(log, RunEvents(actions, log, runner)), id) <==>
            IsVerified(log, id) || (GetsThrough(actions, log, runner) && id in Ids(actions))
  {
    assert actions[0..] == actions;
    RestoresFrom(actions, log, log, runner, [], 0, id);
  }
}
