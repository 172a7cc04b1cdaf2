/** One tick of the drift sweep: the body of the ticker loop of `Reconcile`
    in internal/controller/networkset_controller.go (namespaced sets) and in
    internal/controller/globalnetworkset_controller.go (global sets); the
    two bodies are the same.

    A cancelled context ends the sweep quietly. Otherwise every set the
    operator owns is listed; for each, in order, the domain in its
    `DNS_RESOLVER` label is resolved again and compared with the stored
    allow-list; a set whose list no longer matches is rewritten with the
    fresh list and with labels rebuilt from its own `parent-networkPolicy`
    label. The first failed lookup, comparison or write ends the tick. */
module Sweep {

  import opened Wrappers
  import opened NetworkSets
  import opened Plans
  import opened Resolution
  import opened CidrLists
  import PolicyReconcile

  /** The sweep lists every set carrying the operator's marker label, in
      every namespace, whatever policy it came from. */
  const SweepQuery: ListQuery := ListQuery(None, map[ControlPlaneLabel := OperatorName])

  /** The sweep's listing ignores namespace and parent policy: a set is
      listed exactly when it carries the operator's marker label. */
  lemma SweepSelectsOwned(s: NetworkSet)
    ensures Selects(SweepQuery, s) <==> MapIndex(s.labels, ControlPlaneLabel) == OperatorName
  {
  }

  /** The domain a stored set was derived for. */
  function Domain(s: NetworkSet): string {
    MapIndex(s.labels, SelectorName)
  }

  /** The set as the sweep rewrites it when its list is stale: labels
      rebuilt from its own parent label and domain, the given list stored,
      everything else kept. */
  function Refreshed(s: NetworkSet, nets: seq<string>): (r: NetworkSet)
    ensures r.name == s.name && r.namespace == s.namespace && r.kind == s.kind
    ensures MapIndex(r.labels, ParentLabel) == MapIndex(s.labels, ParentLabel)
    ensures Domain(r) == Domain(s) && r.nets == nets
    ensures r.labels == Labels(MapIndex(s.labels, ParentLabel), Domain(s))
    ensures r.annotations == s.annotations && r.apiVersion == s.apiVersion
  {
    UpdateNetworkSet(MapIndex(s.labels, ParentLabel), s, Domain(s), nets)
  }

  /** What the sweep does with one listed set. */
  function SweepStep(s: NetworkSet, resolve: Resolver): (st: Step)
    ensures st.Act? ==> st.action.Update?
    ensures st.Act? <==> ResolveDomain(resolve, Domain(s)).Success? &&
                         ArraysMatch(ResolveDomain(resolve, Domain(s)).value, s.nets) == Success(false)
    ensures st.Act? ==> st.action.target
                        == Refreshed(s, SortedByCompare(ResolveDomain(resolve, Domain(s)).value, s.nets))
    ensures st.Abort? <==> ResolveDomain(resolve, Domain(s)).Failure? ||
                           ArraysMatch(ResolveDomain(resolve, Domain(s)).value, s.nets).Failure?
  {
    match ResolveDomain(resolve, Domain(s))
    case Failure(e) => Abort(e)
    case Success(nets) =>
      match ArraysMatch(nets, s.nets)
      case Failure(e) => Abort(e)
      case Success(true) => Skip
      case Success(false) => Act(Update(Refreshed(s, SortedByCompare(nets, s.nets))))
  }

  function SweepSteps(sets: seq<NetworkSet>, resolve: Resolver): (r: seq<Step>)
    ensures |r| == |sets|
    ensures forall i :: 0 <= i < |sets| ==> r[i] == SweepStep(sets[i], resolve)
  {
    seq(|sets|, i requires 0 <= i < |sets| => SweepStep(sets[i], resolve))
  }

  lemma SweepStepsAppend(a: seq<NetworkSet>, b: seq<NetworkSet>, resolve: Resolver)
    ensures SweepSteps(a + b, resolve) == SweepSteps(a, resolve) + SweepSteps(b, resolve)
  {
  }

  lemma SweepStepsAround(pre: seq<NetworkSet>, s: NetworkSet, post: seq<NetworkSet>, resolve: Resolver)
    ensures SweepSteps(pre + [s] + post, resolve)
         == SweepSteps(pre, resolve) + [SweepStep(s, resolve)] + SweepSteps(post, resolve)
  {
    SweepStepsAppend(pre + [s], post, resolve);
    SweepStepsAppend(pre, [s], resolve);
  }

  /** One tick: the writes attempted and how the tick ends. */
  function Sweep(cancelled: bool, listed: Result<seq<NetworkSet>, Error>, resolve: Resolver, writes: Writes): (p: Plan)
    ensures cancelled ==> p == Plan([], Pass)
    ensures !cancelled && listed.Failure? ==> p == Plan([], Fail(listed.error))
    ensures forall a :: a in p.actions ==> a.Update?
  {
    if cancelled then Plan([], Pass)
    else match listed
      case Failure(e) => Plan([], Fail(e))
      case Success(sets) =>
        SweepOnlyUpdates(sets, resolve, writes);
        RunSteps(SweepSteps(sets, resolve), writes, 0)
  }

  lemma SweepOnlyUpdates(sets: seq<NetworkSet>, resolve: Resolver, writes: Writes)
    ensures forall a :: a in RunSteps(SweepSteps(sets, resolve), writes, 0).actions ==> a.Update?
  {
    var steps := SweepSteps(sets, resolve);
    forall a | a in RunSteps(steps, writes, 0).actions
      ensures a.Update?
    {
      RunAttemptsAsked(steps, writes, 0, a);
    }
  }

  /** Every write of a tick rewrites a listed set whose stored list does not
      match a fresh resolution of its own domain: the rewrite keeps the
      set's name, namespace and parent label, and stores the fresh list,
      sorted when it is as long as the stored one. */
  lemma SweepRewritesStale(listed: seq<NetworkSet>, resolve: Resolver, writes: Writes, a: Action)
    requires a in Sweep(false, Success(listed), resolve, writes).actions
    ensures exists i :: (0 <= i < |listed| &&
      ResolveDomain(resolve, Domain(listed[i])).Success? &&
      ArraysMatch(ResolveDomain(resolve, Domain(listed[i])).value, listed[i].nets) == Success(false) &&
      a == Update(Refreshed(listed[i], SortedByCompare(ResolveDomain(resolve, Domain(listed[i])).value, listed[i].nets))))
  {
    var steps := SweepSteps(listed, resolve);
    RunAttemptsAsked(steps, writes, 0, a);
    var i :| 0 <= i < |steps| && steps[i] == Act(a);
  }

  /** A lookup that fails ends the tick with its error; the sets listed
      after it are not visited. */
  lemma ResolveFailureStopsSweep(pre: seq<NetworkSet>, s: NetworkSet, post: seq<NetworkSet>,
                                 resolve: Resolver, writes: Writes)
    requires NoAbort(SweepSteps(pre, resolve))
    requires Accepted(writes, 0, |Acts(SweepSteps(pre, resolve))|)
    requires resolve(Domain(s)).Failure?
    ensures Sweep(false, Success(pre + [s] + post), resolve, writes)
         == Plan(Acts(SweepSteps(pre, resolve)), Fail(resolve(Domain(s)).error))
  {
    assert SweepStep(s, resolve) == Abort(resolve(Domain(s)).error);
    SweepStepsAround(pre, s, post, resolve);
    RunStopsAtAbort(SweepSteps(pre, resolve), resolve(Domain(s)).error, SweepSteps(post, resolve), writes, 0);
  }

  /** A stored or resolved entry that is not CIDR notation ends the tick
      with the comparison's error. */
  lemma CompareFailureStopsSweep(pre: seq<NetworkSet>, s: NetworkSet, post: seq<NetworkSet>,
                                 resolve: Resolver, writes: Writes)
    requires NoAbort(SweepSteps(pre, resolve))
    requires Accepted(writes, 0, |Acts(SweepSteps(pre, resolve))|)
    requires resolve(Domain(s)).Success?
    requires ArraysMatch(ResolveDomain(resolve, Domain(s)).value, s.nets).Failure?
    ensures Sweep(false, Success(pre + [s] + post), resolve, writes)
         == Plan(Acts(SweepSteps(pre, resolve)), Fail(Cidr.InvalidCidr))
  {
    assert SweepStep(s, resolve) == Abort(Cidr.InvalidCidr);
    SweepStepsAround(pre, s, post, resolve);
    RunStopsAtAbort(SweepSteps(pre, resolve), Cidr.InvalidCidr, SweepSteps(post, resolve), writes, 0);
  }

  /** A rejected rewrite ends the tick with the store's error. */
  lemma RejectedRewriteStopsSweep(pre: seq<NetworkSet>, s: NetworkSet, post: seq<NetworkSet>,
                                  resolve: Resolver, writes: Writes)
    requires NoAbort(SweepSteps(pre, resolve))
    requires Accepted(writes, 0, |Acts(SweepSteps(pre, resolve))|)
    requires SweepStep(s, resolve).Act?
    requires writes(|Acts(SweepSteps(pre, resolve))|).Fail?
    ensures Sweep(false, Success(pre + [s] + post), resolve, writes)
         == Plan(Acts(SweepSteps(pre, resolve)) + [SweepStep(s, resolve).action],
                 writes(|Acts(SweepSteps(pre, resolve))|))
  {
    SweepUnfold(pre + [s] + post, resolve, writes);
    SweepStepsAround(pre, s, post, resolve);
    ActStops(SweepSteps(pre, resolve), SweepStep(s, resolve), SweepSteps(post, resolve), writes);
  }

  lemma SweepUnfold(sets: seq<NetworkSet>, resolve: Resolver, writes: Writes)
    ensures Sweep(false, Success(sets), resolve, writes) == RunSteps(SweepSteps(sets, resolve), writes, 0)
  {
  }

  lemma ActStops(pre: seq<Step>, st: Step, post: seq<Step>, writes: Writes)
    requires NoAbort(pre) && Accepted(writes, 0, |Acts(pre)|)
    requires st.Act? && writes(|Acts(pre)|).Fail?
    ensures RunSteps(pre + [st] + post, writes, 0) == Plan(Acts(pre) + [st.action], writes(|Acts(pre)|))
  {
    assert st == Act(st.action);
    RunStopsAtRejectedWrite(pre, st.action, post, writes, 0);
  }

  /** The stored list of `s` holds, in any order, what its domain resolves
      to now, and the answers are IPv4 addresses. */
  ghost predicate InStep(s: NetworkSet, resolve: Resolver) {
    resolve(Domain(s)).Success? && AllIpv4(resolve(Domain(s)).value) &&
    multiset(s.nets) == multiset(ResolveDomain(resolve, Domain(s)).value)
  }

  lemma InStepSkipped(s: NetworkSet, resolve: Resolver)
    requires InStep(s, resolve)
    ensures SweepStep(s, resolve) == Skip
  {
    ResolvedMatchesPermutation(resolve, Domain(s), s.nets);
  }

  /** When every listed set is in step with DNS the tick writes nothing and
      succeeds. */
  lemma QuietSweep(listed: seq<NetworkSet>, resolve: Resolver, writes: Writes)
    requires forall i :: 0 <= i < |listed| ==> InStep(listed[i], resolve)
    ensures Sweep(false, Success(listed), resolve, writes) == Plan([], Pass)
  {
    var steps := SweepSteps(listed, resolve);
    forall i | 0 <= i < |listed|
      ensures steps[i] == Skip
    {
      InStepSkipped(listed[i], resolve);
    }
    AllSkipsAct(steps);
    RunAllAccepted(steps, writes, 0);
  }

  lemma {:induction false} AllSkipsAct(steps: seq<Step>)
    requires forall i :: 0 <= i < |steps| ==> steps[i] == Skip
    ensures Acts(steps) == [] && NoAbort(steps)
    decreases |steps|
  {
    if |steps| > 0 {
      AllSkipsAct(steps[1..]);
    }
  }

  /** A set the sweep rewrote is in step at the next tick if DNS answers
      the same IPv4 addresses. */
  lemma RefreshedInStep(s: NetworkSet, resolve: Resolver)
    requires resolve(Domain(s)).Success? && AllIpv4(resolve(Domain(s)).value)
    ensures InStep(Refreshed(s, SortedByCompare(ResolveDomain(resolve, Domain(s)).value, s.nets)), resolve)
  {
  }

  /** Every set a policy pass creates is one the sweep lists, and if DNS
      answers the same IPv4 addresses at the next tick the sweep leaves it
      alone. */
  lemma SweepKeepsCreated(scope: PolicyReconcile.Scope, policy: Policy, ruleNumber: nat, domain: string, resolve: Resolver)
    requires resolve(domain).Success? && AllIpv4(resolve(domain).value)
    ensures var created := PolicyReconcile.BuildSet(scope, policy, ruleNumber, domain, ResolveDomain(resolve, domain).value);
      Selects(SweepQuery, created) && SweepStep(created, resolve) == Skip
  {
    var created := PolicyReconcile.BuildSet(scope, policy, ruleNumber, domain, ResolveDomain(resolve, domain).value);
    assert Domain(created) == domain;
    InStepSkipped(created, resolve);
  }
}
