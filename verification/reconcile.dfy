/** One pass of the policy reconcilers: `Reconcile` in
    internal/controller/networkpolicy_controller.go (namespaced policies) and
    in internal/controller/globalnetworkpolicy_controller.go (global
    policies), as a planner from the store's answers to the writes attempted.

    The pass lists the sets derived from the requested policy, then fetches
    the policy. A failed list or fetch ends the pass before any write. A
    policy that is gone has its derived sets deleted, in listed order. A
    policy that is present has each egress rule visited in order: rules
    whose selector is not a `DNS_RESOLVER` selector are passed over; the
    domain of the others is resolved, and the set for that domain is
    rewritten when the listing holds one and created otherwise. The listing
    taken at the start is used throughout the pass. */
module PolicyReconcile {

  import opened Wrappers
  import opened NetworkSets
  import opened Selector
  import opened Plans
  import opened Resolution
  import Text

  /** Which of the two reconcilers runs. */
  datatype Scope = Namespaced | Global

  /** The policy the pass is about; the namespace is empty for a global one. */
  datatype Request = Request(namespace: string, name: string)

  /** The answer to fetching the policy. */
  datatype Lookup = Found(policy: Policy) | NotFound | LookupFailed(error: Error)

  /** The sets a pass lists: owned by the operator and derived from the
      requested policy; a namespaced pass looks in the policy's namespace
      only, a global pass across the cluster. */
  function PolicyListQuery(scope: Scope, req: Request): (q: ListQuery)
    ensures MapIndex(q.labels, ParentLabel) == req.name
    ensures MapIndex(q.labels, ControlPlaneLabel) == OperatorName
    ensures q.namespace.Some? <==> scope.Namespaced?
    ensures scope.Namespaced? ==> q.namespace == Some(req.namespace)
    ensures q.labels.Keys == {ControlPlaneLabel, ParentLabel}
  {
    var labels := map[ControlPlaneLabel := OperatorName, ParentLabel := req.name];
    match scope
    case Namespaced => ListQuery(Some(req.namespace), labels)
    case Global => ListQuery(None, labels)
  }

  /** The set a rule for `domain` creates. */
  function BuildSet(scope: Scope, policy: Policy, ruleNumber: nat, domain: string, nets: seq<string>): NetworkSet {
    match scope
    case Namespaced => CreateNetworkSet(policy, domain, nets)
    case Global => CreateGlobalNetworkSet(policy, ruleNumber, domain, nets)
  }

  /** What one egress rule asks for. */
  function RuleStep(scope: Scope, req: Request, policy: Policy, ruleNumber: nat, rule: Rule,
                    listed: seq<NetworkSet>, resolve: Resolver): (s: Step)
    ensures ExtractDomain(rule.selector).None? ==> s == Skip
    ensures s.Abort? <==> ExtractDomain(rule.selector).Some? && resolve(ExtractDomain(rule.selector).value).Failure?
    ensures s.Act? ==> !s.action.Delete?
  {
    match ExtractDomain(rule.selector)
    case None => Skip
    case Some(domain) =>
      match ResolveDomain(resolve, domain)
      case Failure(e) => Abort(e)
      case Success(nets) =>
        var found := GetNetworkSet(req.name, domain, listed);
        if found.name != "" then Act(Update(UpdateNetworkSet(policy.name, found, domain, nets)))
        else Act(Create(BuildSet(scope, policy, ruleNumber, domain, nets)))
  }

  /** The steps of the egress rules, in order. */
  function RuleSteps(scope: Scope, req: Request, policy: Policy, listed: seq<NetworkSet>, resolve: Resolver): (r: seq<Step>)
    ensures |r| == |policy.egress|
    ensures forall i :: 0 <= i < |r| ==> r[i] == RuleStep(scope, req, policy, i, policy.egress[i], listed, resolve)
  {
    seq(|policy.egress|, i requires 0 <= i < |policy.egress| => RuleStep(scope, req, policy, i, policy.egress[i], listed, resolve))
  }

  /** The step for one set of a gone policy: sets with an empty name are
      passed over, the others deleted. */
  function DeleteStep(s: NetworkSet): Step {
    if s.name != "" then Act(Delete(s)) else Skip
  }

  function DeleteStepsOf(doomed: seq<NetworkSet>): (r: seq<Step>)
    ensures |r| == |doomed| && NoAbort(r)
    ensures forall i :: 0 <= i < |r| ==> r[i] == DeleteStep(doomed[i])
  {
    seq(|doomed|, i requires 0 <= i < |doomed| => DeleteStep(doomed[i]))
  }

  lemma DeleteStepsOfAppend(a: seq<NetworkSet>, b: seq<NetworkSet>)
    ensures DeleteStepsOf(a + b) == DeleteStepsOf(a) + DeleteStepsOf(b)
  {
  }

  /** The steps for the listed sets whose name contains the policy name. */
  function DeleteSteps(req: Request, listed: seq<NetworkSet>): (r: seq<Step>)
    ensures NoAbort(r)
  {
    DeleteStepsOf(GetNetworkSetList(req.name, listed))
  }

  /** One pass: the writes attempted and how it ends. */
  function Reconcile(scope: Scope, req: Request, listed: Result<seq<NetworkSet>, Error>, lookup: Lookup,
                     resolve: Resolver, writes: Writes): (p: Plan)
    ensures listed.Failure? ==> p == Plan([], Fail(listed.error))
    ensures listed.Success? && lookup.LookupFailed? ==> p == Plan([], Fail(lookup.error))
    ensures listed.Success? && lookup.NotFound? ==>
      forall a :: a in p.actions ==>
        a.Delete? && a.target in listed.value && Text.Contains(a.target.name, req.name) && a.target.name != ""
    ensures listed.Success? && lookup.NotFound? ==> (p.result.Pass? <==> Accepted(writes, 0, |p.actions|))
    ensures lookup.Found? ==> forall a :: a in p.actions ==> !a.Delete?
  {
    match listed
    case Failure(e) => Plan([], Fail(e))
    case Success(sets) =>
      match lookup
      case LookupFailed(e) => Plan([], Fail(e))
      case NotFound =>
        DeletionsListed(req, sets, writes);
        RunOutcome(DeleteSteps(req, sets), writes, 0);
        RunPrefix(DeleteSteps(req, sets), writes, 0);
        RunSteps(DeleteSteps(req, sets), writes, 0)
      case Found(policy) =>
        RulesNeverDelete(scope, req, policy, sets, resolve, writes);
        RunSteps(RuleSteps(scope, req, policy, sets, resolve), writes, 0)
  }

  lemma DeletionsListed(req: Request, listed: seq<NetworkSet>, writes: Writes)
    ensures forall a :: a in RunSteps(DeleteSteps(req, listed), writes, 0).actions ==>
      a.Delete? && a.target in listed && Text.Contains(a.target.name, req.name) && a.target.name != ""
  {
    var steps := DeleteSteps(req, listed);
    var p := RunSteps(steps, writes, 0);
    forall a | a in p.actions
      ensures a.Delete? && a.target in listed && Text.Contains(a.target.name, req.name) && a.target.name != ""
    {
      RunAttemptsAsked(steps, writes, 0, a);
      var i :| 0 <= i < |steps| && steps[i] == Act(a);
    }
  }

  lemma RulesNeverDelete(scope: Scope, req: Request, policy: Policy, listed: seq<NetworkSet>, resolve: Resolver, writes: Writes)
    ensures forall a :: a in RunSteps(RuleSteps(scope, req, policy, listed, resolve), writes, 0).actions ==> !a.Delete?
  {
    var steps := RuleSteps(scope, req, policy, listed, resolve);
    var p := RunSteps(steps, writes, 0);
    forall a | a in p.actions
      ensures !a.Delete?
    {
      RunAttemptsAsked(steps, writes, 0, a);
    }
  }

  /** The deletions of the sets of `doomed` that have a name, in order. */
  function Deletions(doomed: seq<NetworkSet>): (r: seq<Action>)
    ensures |r| <= |doomed|
  {
    if |doomed| == 0 then []
    else (if doomed[0].name != "" then [Delete(doomed[0])] else []) + Deletions(doomed[1..])
  }

  lemma {:induction false} DeleteStepsActs(doomed: seq<NetworkSet>)
    ensures Acts(DeleteStepsOf(doomed)) == Deletions(doomed)
    decreases |doomed|
  {
    if |doomed| > 0 {
      DeleteStepsActs(doomed[1..]);
      assert DeleteStepsOf(doomed)[1..] == DeleteStepsOf(doomed[1..]);
    }
  }

  /** A gone policy whose deletions are all accepted has every named set
      it lists under its name deleted, in listed order, and the pass
      succeeds. */
  lemma GonePolicyDeletesAll(scope: Scope, req: Request, sets: seq<NetworkSet>, resolve: Resolver, writes: Writes)
    requires Accepted(writes, 0, |Deletions(GetNetworkSetList(req.name, sets))|)
    ensures Reconcile(scope, req, Success(sets), NotFound, resolve, writes)
         == Plan(Deletions(GetNetworkSetList(req.name, sets)), Pass)
  {
    DeleteStepsActs(GetNetworkSetList(req.name, sets));
    RunAllAccepted(DeleteSteps(req, sets), writes, 0);
  }

  /** A rejected deletion ends the pass with the store's error: the sets
      listed after it are left alone. */
  lemma GonePolicyStopsAtRejectedDelete(scope: Scope, req: Request, pre: seq<NetworkSet>, s: NetworkSet,
                                        post: seq<NetworkSet>, resolve: Resolver, writes: Writes)
    requires Text.Contains(s.name, req.name) && s.name != ""
    requires Accepted(writes, 0, |Deletions(GetNetworkSetList(req.name, pre))|)
    requires writes(|Deletions(GetNetworkSetList(req.name, pre))|).Fail?
    ensures Reconcile(scope, req, Success(pre + [s] + post), NotFound, resolve, writes)
         == Plan(Deletions(GetNetworkSetList(req.name, pre)) + [Delete(s)],
                 writes(|Deletions(GetNetworkSetList(req.name, pre))|))
  {
    ReconcileGone(scope, req, pre + [s] + post, resolve, writes);
    DeletePassStops(req, pre, s, post, writes);
  }

  lemma ReconcileGone(scope: Scope, req: Request, sets: seq<NetworkSet>, resolve: Resolver, writes: Writes)
    ensures Reconcile(scope, req, Success(sets), NotFound, resolve, writes) == RunSteps(DeleteSteps(req, sets), writes, 0)
  {
  }

  lemma DeletePassStops(req: Request, pre: seq<NetworkSet>, s: NetworkSet, post: seq<NetworkSet>, writes: Writes)
    requires Text.Contains(s.name, req.name) && s.name != ""
    requires Accepted(writes, 0, |Deletions(GetNetworkSetList(req.name, pre))|)
    requires writes(|Deletions(GetNetworkSetList(req.name, pre))|).Fail?
    ensures RunSteps(DeleteSteps(req, pre + [s] + post), writes, 0)
         == Plan(Deletions(GetNetworkSetList(req.name, pre)) + [Delete(s)],
                 writes(|Deletions(GetNetworkSetList(req.name, pre))|))
  {
    var dp, dq := GetNetworkSetList(req.name, pre), GetNetworkSetList(req.name, post);
    DeleteStepsAround(req, pre, s, post);
    DeleteStepsActs(dp);
    RunStopsAtRejectedWrite(DeleteStepsOf(dp), Delete(s), DeleteStepsOf(dq), writes, 0);
  }

  lemma DeleteStepsAround(req: Request, pre: seq<NetworkSet>, s: NetworkSet, post: seq<NetworkSet>)
    requires Text.Contains(s.name, req.name) && s.name != ""
    ensures DeleteSteps(req, pre + [s] + post) ==
      DeleteStepsOf(GetNetworkSetList(req.name, pre)) + [Act(Delete(s))] + DeleteStepsOf(GetNetworkSetList(req.name, post))
  {
    var dp, dq := GetNetworkSetList(req.name, pre), GetNetworkSetList(req.name, post);
    FilterAroundKept(req.name, pre, s, post);
    DeleteStepsOfAppend(dp + [s], dq);
    DeleteStepsOfAppend(dp, [s]);
    assert DeleteStepsOf([s]) == [Act(Delete(s))];
    assert DeleteSteps(req, pre + [s] + post) == DeleteStepsOf(dp + [s] + dq);
  }

  /** A kept set splits the filtered list around it. */
  lemma FilterAroundKept(policyName: string, pre: seq<NetworkSet>, s: NetworkSet, post: seq<NetworkSet>)
    requires Text.Contains(s.name, policyName)
    ensures GetNetworkSetList(policyName, pre + [s] + post)
         == GetNetworkSetList(policyName, pre) + [s] + GetNetworkSetList(policyName, post)
  {
    GetNetworkSetListAppend(policyName, pre + [s], post);
    GetNetworkSetListAppend(policyName, pre, [s]);
    GetNetworkSetListSingle(policyName, s);
  }

  /** A rule whose selector is not a `DNS_RESOLVER` selector does nothing,
      wherever it sits among the rules. */
  lemma OtherRulesIgnored(scope: Scope, req: Request, policy: Policy, listed: seq<NetworkSet>, resolve: Resolver, i: nat)
    requires i < |policy.egress| && ExtractDomain(policy.egress[i].selector).None?
    ensures RuleSteps(scope, req, policy, listed, resolve)[i] == Skip
  {
  }

  /** A set the listing holds for the rule's domain is rewritten: its
      labels are reset for the policy and the domain and its address list
      replaced by the fresh answer, whatever it held before. */
  lemma FoundSetUpdated(scope: Scope, req: Request, policy: Policy, ruleNumber: nat, w1: char, w2: char,
                        domain: string, listed: seq<NetworkSet>, resolve: Resolver)
    requires IsSpace(w1) && IsSpace(w2) && '\n' !in domain
    requires resolve(domain).Success?
    requires GetNetworkSet(req.name, domain, listed).name != ""
    ensures RuleStep(scope, req, policy, ruleNumber, Rule(SelectorText(w1, w2, domain)), listed, resolve)
         == Act(Update(UpdateNetworkSet(policy.name, GetNetworkSet(req.name, domain, listed), domain,
                                        ResolveDomain(resolve, domain).value)))
  {
    ExtractSelector(w1, w2, domain);
  }

  /** A set the listing already holds for the rule's domain is rewritten
      even when it is already up to date: the write resubmits it unchanged.
      No comparison of address lists is made on this path. */
  lemma UpToDateSetRewritten(scope: Scope, req: Request, policy: Policy, ruleNumber: nat, w1: char, w2: char,
                             domain: string, listed: seq<NetworkSet>, resolve: Resolver)
    requires IsSpace(w1) && IsSpace(w2) && '\n' !in domain
    requires resolve(domain).Success?
    requires GetNetworkSet(req.name, domain, listed).name != ""
    requires GetNetworkSet(req.name, domain, listed).labels == Labels(policy.name, domain)
    requires GetNetworkSet(req.name, domain, listed).nets == ResolveDomain(resolve, domain).value
    ensures RuleStep(scope, req, policy, ruleNumber, Rule(SelectorText(w1, w2, domain)), listed, resolve)
         == Act(Update(GetNetworkSet(req.name, domain, listed)))
  {
    ExtractSelector(w1, w2, domain);
  }

  /** With no set listed for the domain, the rule creates one, named after
      the policy and the domain. */
  lemma MissingSetCreated(scope: Scope, req: Request, policy: Policy, ruleNumber: nat, w1: char, w2: char,
                          domain: string, listed: seq<NetworkSet>, resolve: Resolver)
    requires IsSpace(w1) && IsSpace(w2) && '\n' !in domain
    requires resolve(domain).Success?
    requires forall i :: 0 <= i < |listed| ==> !Qualifies(listed[i], req.name, domain)
    ensures RuleStep(scope, req, policy, ruleNumber, Rule(SelectorText(w1, w2, domain)), listed, resolve)
         == Act(Create(BuildSet(scope, policy, ruleNumber, domain, ResolveDomain(resolve, domain).value)))
  {
    ExtractSelector(w1, w2, domain);
  }

  /** A set created for a present policy is one the next pass for that
      policy lists: it carries the labels and namespace the query asks for. */
  lemma CreatedSetListed(scope: Scope, req: Request, policy: Policy, ruleNumber: nat, domain: string, nets: seq<string>)
    requires policy.name == req.name
    requires scope.Namespaced? ==> policy.namespace == req.namespace
    ensures Selects(PolicyListQuery(scope, req), BuildSet(scope, policy, ruleNumber, domain, nets))
  {
  }

  /** Once a created set is listed, the next pass for the same rule rewrites
      it instead of creating another; with the same answers from DNS the
      rewrite leaves it as it is. */
  lemma SecondPassRewrites(scope: Scope, req: Request, policy: Policy, ruleNumber: nat, w1: char, w2: char,
                           domain: string, resolve: Resolver, others: seq<NetworkSet>)
    requires IsSpace(w1) && IsSpace(w2) && '\n' !in domain
    requires policy.name == req.name && resolve(domain).Success?
    ensures var created := BuildSet(scope, policy, ruleNumber, domain, ResolveDomain(resolve, domain).value);
      RuleStep(scope, req, policy, ruleNumber, Rule(SelectorText(w1, w2, domain)), [created] + others, resolve)
      == Act(Update(created))
  {
    var created := BuildSet(scope, policy, ruleNumber, domain, ResolveDomain(resolve, domain).value);
    ExtractSelector(w1, w2, domain);
    SetNameContainsPolicy(policy.name, domain);
    assert Qualifies(created, req.name, domain);
  }

  /** The listing is not refreshed within a pass: two rules for the same
      domain, with no set listed for it, both ask for a create of the same
      set. */
  lemma SnapshotNotRefreshed(req: Request, policy: Policy, w1: char, w2: char, domain: string,
                             listed: seq<NetworkSet>, resolve: Resolver)
    requires IsSpace(w1) && IsSpace(w2) && '\n' !in domain
    requires resolve(domain).Success?
    requires forall i :: 0 <= i < |listed| ==> !Qualifies(listed[i], req.name, domain)
    requires policy.egress == [Rule(SelectorText(w1, w2, domain)), Rule(SelectorText(w1, w2, domain))]
    ensures var c := Create(CreateNetworkSet(policy, domain, ResolveDomain(resolve, domain).value));
      Acts(RuleSteps(Namespaced, req, policy, listed, resolve)) == [c, c]
  {
    var steps := RuleSteps(Namespaced, req, policy, listed, resolve);
    var c := Create(CreateNetworkSet(policy, domain, ResolveDomain(resolve, domain).value));
    MissingSetCreated(Namespaced, req, policy, 0, w1, w2, domain, listed, resolve);
    MissingSetCreated(Namespaced, req, policy, 1, w1, w2, domain, listed, resolve);
    assert steps == [Act(c), Act(c)];
    TwoActs(c, c);
  }

  lemma TwoActs(a: Action, b: Action)
    ensures Acts([Act(a), Act(b)]) == [a, b]
  {
    assert [Act(a), Act(b)][1..] == [Act(b)];
    assert [Act(b)][1..] == [];
  }

  /** A rule whose domain does not resolve ends the pass with the lookup's
      error, after the writes of the rules before it; later rules are not
      visited. */
  lemma ResolveFailureStopsPass(scope: Scope, req: Request, policy: Policy, sets: seq<NetworkSet>,
                                resolve: Resolver, writes: Writes, k: nat)
    requires k < |policy.egress|
    requires ExtractDomain(policy.egress[k].selector).Some?
    requires resolve(ExtractDomain(policy.egress[k].selector).value).Failure?
    requires NoAbort(RuleSteps(scope, req, policy, sets, resolve)[..k])
    requires Accepted(writes, 0, |Acts(RuleSteps(scope, req, policy, sets, resolve)[..k])|)
    ensures Reconcile(scope, req, Success(sets), Found(policy), resolve, writes)
         == Plan(Acts(RuleSteps(scope, req, policy, sets, resolve)[..k]),
                 Fail(resolve(ExtractDomain(policy.egress[k].selector).value).error))
  {
    ReconcilePresent(scope, req, policy, sets, resolve, writes);
    var steps := RuleSteps(scope, req, policy, sets, resolve);
    AbortStops(steps, k, writes);
  }

  lemma ReconcilePresent(scope: Scope, req: Request, policy: Policy, sets: seq<NetworkSet>,
                         resolve: Resolver, writes: Writes)
    ensures Reconcile(scope, req, Success(sets), Found(policy), resolve, writes)
         == RunSteps(RuleSteps(scope, req, policy, sets, resolve), writes, 0)
  {
  }

  /** The first abort among `steps` ends the run, at index `k`. */
  lemma AbortStops(steps: seq<Step>, k: nat, writes: Writes)
    requires k < |steps| && steps[k].Abort?
    requires NoAbort(steps[..k]) && Accepted(writes, 0, |Acts(steps[..k])|)
    ensures RunSteps(steps, writes, 0) == Plan(Acts(steps[..k]), Fail(steps[k].error))
  {
    assert steps == steps[..k] + [Abort(steps[k].error)] + steps[k + 1..];
    RunStopsAtAbort(steps[..k], steps[k].error, steps[k + 1..], writes, 0);
  }

  /** A present policy whose rules all resolve and whose writes are all
      accepted gets one write per `DNS_RESOLVER` rule, in rule order, and
      the pass succeeds. */
  lemma PresentPolicyWritesAll(scope: Scope, req: Request, policy: Policy, sets: seq<NetworkSet>,
                               resolve: Resolver, writes: Writes)
    requires forall i :: 0 <= i < |policy.egress| && ExtractDomain(policy.egress[i].selector).Some? ==>
      resolve(ExtractDomain(policy.egress[i].selector).value).Success?
    requires Accepted(writes, 0, |Acts(RuleSteps(scope, req, policy, sets, resolve))|)
    ensures Reconcile(scope, req, Success(sets), Found(policy), resolve, writes)
         == Plan(Acts(RuleSteps(scope, req, policy, sets, resolve)), Pass)
  {
    var steps := RuleSteps(scope, req, policy, sets, resolve);
    assert NoAbort(steps);
    RunAllAccepted(steps, writes, 0);
  }
}
