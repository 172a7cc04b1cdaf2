/** The early-exit shape shared by every loop of the reconcilers: items are
    visited in order; an item may be passed over, may end the pass with an
    error before anything is written (a failed lookup or comparison), or
    may ask for one write to the store. The first write the store rejects
    ends the pass with the store's error; the writes attempted up to and
    including it are the pass's observable effect.

    The store's answers are an input: `writes(k)` is the outcome of the
    `k`-th write attempted in the pass, counting from zero. */
module Plans {

  import opened Wrappers
  import opened NetworkSets

  /** A write to the store. */
  datatype Action = Create(target: NetworkSet) | Update(target: NetworkSet) | Delete(target: NetworkSet)

  /** What one visited item asks for. */
  datatype Step = Skip | Act(action: Action) | Abort(error: Error)

  /** The writes attempted, in order, and how the pass ended. */
  datatype Plan = Plan(actions: seq<Action>, result: Outcome<Error>)

  type Writes = nat -> Outcome<Error>

  /** The writes the steps ask for, in order, ignoring errors. */
  function Acts(steps: seq<Step>): (r: seq<Action>)
    ensures |r| <= |steps|
  {
    if |steps| == 0 then []
    else match steps[0]
      case Act(a) => [a] + Acts(steps[1..])
      case _ => Acts(steps[1..])
  }

  lemma {:induction false} ActsAppend(a: seq<Step>, b: seq<Step>)
    ensures Acts(a + b) == Acts(a) + Acts(b)
    decreases |a|
  {
    if |a| == 0 {
      assert a + b == b;
    } else {
      assert (a + b)[0] == a[0] && (a + b)[1..] == a[1..] + b;
      ActsAppend(a[1..], b);
    }
  }

  /** Every action of `Acts(steps)` is asked for by some step. */
  lemma {:induction false} ActsFromSteps(steps: seq<Step>, a: Action)
    requires a in Acts(steps)
    ensures Act(a) in steps
    decreases |steps|
  {
    if steps[0] != Act(a) {
      ActsFromSteps(steps[1..], a);
    }
  }

  predicate NoAbort(steps: seq<Step>) {
    forall i :: 0 <= i < |steps| ==> !steps[i].Abort?
  }

  /** The store accepts the writes numbered `from` up to `to`, exclusive. */
  ghost predicate Accepted(writes: Writes, from: nat, to: nat) {
    forall k :: from <= k < to ==> writes(k).Pass?
  }

  /** Runs the steps in order, numbering writes from `done`; each step
      attempts at most one write. */
  function RunSteps(steps: seq<Step>, writes: Writes, done: nat): (p: Plan)
    ensures |p.actions| <= |steps|
    decreases |steps|
  {
    if |steps| == 0 then Plan([], Pass)
    else
      match steps[0]
      case Skip =>
        RunSteps(steps[1..], writes, done)
      case Abort(e) =>
        Plan([], Fail(e))
      case Act(a) =>
        match writes(done)
        case Fail(e) =>
          Plan([a], Fail(e))
        case Pass =>
          var p := RunSteps(steps[1..], writes, done + 1);
          Plan([a] + p.actions, p.result)
  }

  /** How a run ends: every write but the last attempted one was accepted;
      the run succeeds exactly when no step aborts and the store accepts
      every write asked for; a run without aborts that fails, fails with
      the store's answer to its last write. */
  lemma {:induction false} RunOutcome(steps: seq<Step>, writes: Writes, done: nat)
    ensures var p := RunSteps(steps, writes, done);
      && (|p.actions| > 0 ==> Accepted(writes, done, done + |p.actions| - 1))
      && (p.result.Pass? <==> NoAbort(steps) && Accepted(writes, done, done + |Acts(steps)|))
      && (p.result.Fail? && NoAbort(steps) ==> |p.actions| > 0 && writes(done + |p.actions| - 1) == p.result)
      && (p.result.Fail? && |p.actions| > 0 && writes(done + |p.actions| - 1).Fail? ==>
            p.result == writes(done + |p.actions| - 1))
    decreases |steps|
  {
    if |steps| > 0 {
      var rest := steps[1..];
      assert forall i :: 0 < i < |steps| ==> steps[i] == rest[i - 1];
      match steps[0]
      case Skip =>
        RunOutcome(rest, writes, done);
      case Abort(e) =>
      case Act(a) =>
        if writes(done).Pass? {
          RunOutcome(rest, writes, done + 1);
        }
    }
  }

  /** The writes attempted are a prefix of those asked for, and all of them
      when the pass succeeds. */
  lemma {:induction false} RunPrefix(steps: seq<Step>, writes: Writes, done: nat)
    ensures var p := RunSteps(steps, writes, done);
      && p.actions <= Acts(steps)
      && (p.result.Pass? ==> p.actions == Acts(steps))
    decreases |steps|
  {
    if |steps| > 0 {
      match steps[0]
      case Skip =>
        RunPrefix(steps[1..], writes, done);
      case Abort(e) =>
      case Act(a) =>
        if writes(done).Pass? {
          RunPrefix(steps[1..], writes, done + 1);
        }
    }
  }

  /** Every write attempted is asked for by some step. */
  lemma RunAttemptsAsked(steps: seq<Step>, writes: Writes, done: nat, a: Action)
    requires a in RunSteps(steps, writes, done).actions
    ensures Act(a) in steps
  {
    RunPrefix(steps, writes, done);
    var p := RunSteps(steps, writes, done);
    assert a in Acts(steps) by {
      var i :| 0 <= i < |p.actions| && p.actions[i] == a;
      assert Acts(steps)[i] == a;
    }
    ActsFromSteps(steps, a);
  }

  /** One step of the run. */
  lemma RunStep(steps: seq<Step>, writes: Writes, done: nat)
    requires |steps| > 0
    ensures steps[0].Skip? ==> RunSteps(steps, writes, done) == RunSteps(steps[1..], writes, done)
    ensures steps[0].Abort? ==> RunSteps(steps, writes, done) == Plan([], Fail(steps[0].error))
    ensures steps[0].Act? && writes(done).Fail? ==> RunSteps(steps, writes, done) == Plan([steps[0].action], writes(done))
    ensures steps[0].Act? && writes(done).Pass? ==>
      var p := RunSteps(steps[1..], writes, done + 1);
      RunSteps(steps, writes, done) == Plan([steps[0].action] + p.actions, p.result)
  {
  }

  /** Steps that all go through attempt every write they ask for. */
  lemma RunAllAccepted(steps: seq<Step>, writes: Writes, done: nat)
    requires NoAbort(steps) && Accepted(writes, done, done + |Acts(steps)|)
    ensures RunSteps(steps, writes, done) == Plan(Acts(steps), Pass)
  {
  }

  /** An abort ends the pass with its error after the writes before it,
      and nothing after it is attempted. */
  lemma RunStopsAtAbort(pre: seq<Step>, e: Error, post: seq<Step>, writes: Writes, done: nat)
    requires NoAbort(pre) && Accepted(writes, done, done + |Acts(pre)|)
    ensures RunSteps(pre + [Abort(e)] + post, writes, done) == Plan(Acts(pre), Fail(e))
    decreases |pre|
  {
    var steps := pre + [Abort(e)] + post;
    RunStep(steps, writes, done);
    if |pre| > 0 {
      assert steps[1..] == pre[1..] + [Abort(e)] + post;
      if pre[0].Act? {
        RunStopsAtAbort(pre[1..], e, post, writes, done + 1);
      } else {
        RunStopsAtAbort(pre[1..], e, post, writes, done);
      }
    } else {
      assert pre + [Abort(e)] + post == [Abort(e)] + post;
    }
  }

  /** A rejected write ends the pass with the store's error; it is the last
      write attempted. */
  lemma RunStopsAtRejectedWrite(pre: seq<Step>, a: Action, post: seq<Step>, writes: Writes, done: nat)
    requires NoAbort(pre) && Accepted(writes, done, done + |Acts(pre)|)
    requires writes(done + |Acts(pre)|).Fail?
    ensures RunSteps(pre + [Act(a)] + post, writes, done) ==
      Plan(Acts(pre) + [a], writes(done + |Acts(pre)|))
    decreases |pre|
  {
    var steps := pre + [Act(a)] + post;
    RunStep(steps, writes, done);
    if |pre| > 0 {
      assert steps[1..] == pre[1..] + [Act(a)] + post;
      assert Acts(pre) == (if pre[0].Act? then [pre[0].action] else []) + Acts(pre[1..]);
      if pre[0].Act? {
        RunStopsAtRejectedWrite(pre[1..], a, post, writes, done + 1);
      } else {
        RunStopsAtRejectedWrite(pre[1..], a, post, writes, done);
      }
    } else {
      assert pre + [Act(a)] + post == [Act(a)] + post;
    }
  }

  /** What is left of the pass after `actions` were attempted and the
      first `i` steps visited. */
  ghost predicate Resumes(steps: seq<Step>, writes: Writes, i: nat, actions: seq<Action>)
    requires i <= |steps|
  {
    var p := RunSteps(steps[i..], writes, |actions|);
    RunSteps(steps, writes, 0) == Plan(actions + p.actions, p.result)
  }

  lemma ResumeAfterSkip(steps: seq<Step>, writes: Writes, i: nat, actions: seq<Action>)
    requires i < |steps| && steps[i].Skip? && Resumes(steps, writes, i, actions)
    ensures Resumes(steps, writes, i + 1, actions)
  {
    assert steps[i..][1..] == steps[i + 1..];
    RunStep(steps[i..], writes, |actions|);
  }

  lemma ResumeAtAbort(steps: seq<Step>, writes: Writes, i: nat, actions: seq<Action>)
    requires i < |steps| && steps[i].Abort? && Resumes(steps, writes, i, actions)
    ensures RunSteps(steps, writes, 0) == Plan(actions, Fail(steps[i].error))
  {
    RunStep(steps[i..], writes, |actions|);
  }

  lemma ResumeAtRejectedWrite(steps: seq<Step>, writes: Writes, i: nat, actions: seq<Action>)
    requires i < |steps| && steps[i].Act? && Resumes(steps, writes, i, actions)
    requires writes(|actions|).Fail?
    ensures RunSteps(steps, writes, 0) == Plan(actions + [steps[i].action], writes(|actions|))
  {
    RunStep(steps[i..], writes, |actions|);
  }

  lemma ResumeAfterAcceptedWrite(steps: seq<Step>, writes: Writes, i: nat, actions: seq<Action>)
    requires i < |steps| && steps[i].Act? && Resumes(steps, writes, i, actions)
    requires writes(|actions|).Pass?
    ensures Resumes(steps, writes, i + 1, actions + [steps[i].action])
  {
    assert steps[i..][1..] == steps[i + 1..];
    RunStep(steps[i..], writes, |actions|);
    var p := RunSteps(steps[i + 1..], writes, |actions| + 1);
    assert actions + ([steps[i].action] + p.actions) == (actions + [steps[i].action]) + p.actions;
  }

  /** The same pass as a loop with early returns, the way the reconcilers
      are written; it attempts the same writes and ends the same way. */
  method Execute(steps: seq<Step>, writes: Writes) returns (actions: seq<Action>, result: Outcome<Error>)
    ensures Plan(actions, result) == RunSteps(steps, writes, 0)
  {
    actions := [];
    var i := 0;
    assert steps[0..] == steps;
    while i < |steps|
      invariant 0 <= i <= |steps|
      invariant Resumes(steps, writes, i, actions)
    {
      match steps[i] {
        case Skip =>
          ResumeAfterSkip(steps, writes, i, actions);
        case Abort(e) =>
          ResumeAtAbort(steps, writes, i, actions);
          return actions, Fail(e);
        case Act(a) =>
          var outcome := writes(|actions|);
          if outcome.Fail? {
            ResumeAtRejectedWrite(steps, writes, i, actions);
            return actions + [a], outcome;
          }
          ResumeAfterAcceptedWrite(steps, writes, i, actions);
          actions := actions + [a];
      }
      i := i + 1;
    }
    assert steps[i..] == [];
    return actions, Pass;
  }
}
