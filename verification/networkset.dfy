/** The derived objects (internal/controller/networkset.go and
    internal/controller/globalnetworkset.go): how a network set is named,
    labelled and built from a policy and a domain, how an existing one is
    rewritten, and how the reconcilers look one up in a listed snapshot.

    Namespaced and global network sets share one datatype; a global set has
    the empty namespace, as its Go object's unset namespace field reads. */
module NetworkSets {

  import opened Wrappers
  import Text

  /** The label key (and the selector keyword) naming the resolved domain. */
  const SelectorName: string := "DNS_RESOLVER"
  /** The label key naming the policy a set was derived from. */
  const ParentLabel: string := "parent-networkPolicy"
  const ControlPlaneLabel: string := "control-plane"
  const OperatorName: string := "networksets-operator"
  const OperatorAnnotation: string := "operator"
  const ApiVersion: string := "projectcalico.org/v3"
  const NetworkSetKind: string := "NetworkSet"
  const GlobalNetworkSetKind: string := "GlobalNetworkSet"

  /** A Calico `NetworkSet` or `GlobalNetworkSet`, reduced to the fields the
      operator reads or writes. `nets` is the CIDR allow-list. */
  datatype NetworkSet = NetworkSet(
    kind: string,
    apiVersion: string,
    name: string,
    namespace: string,
    labels: map<string, string>,
    annotations: map<string, string>,
    nets: seq<string>)

  /** What the lookup returns when nothing qualifies: a zero-valued set. */
  const EmptySet: NetworkSet := NetworkSet("", "", "", "", map[], map[], [])

  /** One egress rule; only its destination selector is read. */
  datatype Rule = Rule(selector: string)

  /** A Calico `NetworkPolicy` or `GlobalNetworkPolicy` (namespace empty). */
  datatype Policy = Policy(name: string, namespace: string, egress: seq<Rule>)

  /** Go's map index `m[key]` on a label or annotation map: the zero value
      "" for a missing key. */
  function MapIndex(m: map<string, string>, key: string): string {
    if key in m then m[key] else ""
  }

  /** `transformDomain`: every `.` and every `:` becomes `-`. */
  function TransformDomain(domain: string): (r: string)
    ensures |r| == |domain|
    ensures forall i :: 0 <= i < |r| ==> r[i] == (if domain[i] == '.' || domain[i] == ':' then '-' else domain[i])
    ensures '.' !in r && ':' !in r
  {
    Text.ReplaceChar(Text.ReplaceChar(domain, '.', '-'), ':', '-')
  }

  /** A name that went through `transformDomain` comes back unchanged. */
  lemma TransformDomainIdempotent(domain: string)
    ensures TransformDomain(TransformDomain(domain)) == TransformDomain(domain)
  {
  }

  /** Characters other than `.` and `:` are kept, so a domain without them
      is its own transform. */
  lemma TransformDomainFixedPoints(domain: string)
    ensures TransformDomain(domain) == domain <==> ('.' !in domain && ':' !in domain)
  {
    if TransformDomain(domain) == domain {
      forall i | 0 <= i < |domain|
        ensures domain[i] != '.' && domain[i] != ':'
      {
        assert TransformDomain(domain)[i] == domain[i];
      }
    }
  }

  /** `getLabels`: the domain, the parent policy and the operator marker. */
  function Labels(name: string, domain: string): (r: map<string, string>)
    ensures r.Keys == {SelectorName, ParentLabel, ControlPlaneLabel}
    ensures MapIndex(r, SelectorName) == domain
    ensures MapIndex(r, ParentLabel) == name
    ensures MapIndex(r, ControlPlaneLabel) == OperatorName
  {
    map[SelectorName := domain, ParentLabel := name, ControlPlaneLabel := OperatorName]
  }

  /** The three label keys are distinct, so no entry hides another. */
  lemma LabelsHaveThreeKeys(name: string, domain: string)
    ensures |Labels(name, domain).Keys| == 3
  {
    assert SelectorName[0] != ParentLabel[0] && ParentLabel[0] != ControlPlaneLabel[0];
    assert SelectorName[0] != ControlPlaneLabel[0];
  }

  /** `getAnnotations`: the fixed pair marking objects the operator owns. */
  function Annotations(): (r: map<string, string>)
    ensures r.Keys == {OperatorAnnotation, ControlPlaneLabel}
    ensures MapIndex(r, OperatorAnnotation) == "networksets"
    ensures MapIndex(r, ControlPlaneLabel) == OperatorName
  {
    map[OperatorAnnotation := "networksets", ControlPlaneLabel := OperatorName]
  }

  /** The name of the set derived from `policyName` for `domain`. */
  function SetName(policyName: string, domain: string): string {
    policyName + "-" + TransformDomain(domain)
  }

  /** The name of a derived set starts with its policy's name, so the
      name filter of the lookups admits it. */
  lemma SetNameContainsPolicy(policyName: string, domain: string)
    ensures Text.Contains(SetName(policyName, domain), policyName)
    ensures SetName(policyName, domain) != ""
  {
    Text.ContainsPrefix(policyName, "-" + TransformDomain(domain));
    assert SetName(policyName, domain) == policyName + ("-" + TransformDomain(domain));
  }

  /** `createNetworkset`: a namespaced set in the policy's namespace. */
  function CreateNetworkSet(policy: Policy, domain: string, nets: seq<string>): (r: NetworkSet)
    ensures r.kind == NetworkSetKind && r.apiVersion == ApiVersion
    ensures r.name == SetName(policy.name, domain) && r.namespace == policy.namespace
    ensures r.labels == Labels(policy.name, domain) && r.annotations == Annotations()
    ensures r.nets == nets
  {
    NetworkSet(NetworkSetKind, ApiVersion, SetName(policy.name, domain), policy.namespace,
               Labels(policy.name, domain), Annotations(), nets)
  }

  /** `createGlobalNetworkset`: a cluster-wide set with no namespace. The
      rule number is accepted and never read. */
  function CreateGlobalNetworkSet(policy: Policy, ruleNumber: int, domain: string, nets: seq<string>): (r: NetworkSet)
    ensures r.kind == GlobalNetworkSetKind && r.apiVersion == ApiVersion
    ensures r.name == SetName(policy.name, domain) && r.namespace == ""
    ensures r.labels == Labels(policy.name, domain) && r.annotations == Annotations()
    ensures r.nets == nets
  {
    NetworkSet(GlobalNetworkSetKind, ApiVersion, SetName(policy.name, domain), "",
               Labels(policy.name, domain), Annotations(), nets)
  }

  /** The global set built for a rule does not depend on the rule's number. */
  lemma GlobalSetIgnoresRuleNumber(policy: Policy, m: int, n: int, domain: string, nets: seq<string>)
    ensures CreateGlobalNetworkSet(policy, m, domain, nets) == CreateGlobalNetworkSet(policy, n, domain, nets)
  {
  }

  /** The two builders differ only in kind and namespace. */
  lemma GlobalAndNamespacedAgree(policy: Policy, ruleNumber: int, domain: string, nets: seq<string>)
    ensures CreateGlobalNetworkSet(policy, ruleNumber, domain, nets)
         == CreateNetworkSet(policy, domain, nets).(kind := GlobalNetworkSetKind, namespace := "")
  {
  }

  /** `updateNetworkset` and `updateGlobalNetworkset`: the labels are rebuilt
      for `policyName` and `domain` and the allow-list is replaced; name,
      namespace, kind and annotations are kept. Only the policy's name is
      read, which is what lets the sweep pass a policy it made up from a
      label. */
  function UpdateNetworkSet(policyName: string, s: NetworkSet, domain: string, nets: seq<string>): (r: NetworkSet)
    ensures r.kind == s.kind && r.apiVersion == s.apiVersion
    ensures r.name == s.name && r.namespace == s.namespace && r.annotations == s.annotations
    ensures r.labels == Labels(policyName, domain) && r.nets == nets
  {
    s.(labels := Labels(policyName, domain), nets := nets)
  }

  /** Rewriting a set twice with the same inputs is rewriting it once. */
  lemma UpdateIdempotent(policyName: string, s: NetworkSet, domain: string, nets: seq<string>)
    ensures UpdateNetworkSet(policyName, UpdateNetworkSet(policyName, s, domain, nets), domain, nets)
         == UpdateNetworkSet(policyName, s, domain, nets)
  {
  }

  /** Rewriting a freshly built set with the inputs it was built from gives
      it back unchanged. */
  lemma UpdateOfCreated(policy: Policy, domain: string, nets: seq<string>, nets': seq<string>)
    ensures UpdateNetworkSet(policy.name, CreateNetworkSet(policy, domain, nets'), domain, nets)
         == CreateNetworkSet(policy, domain, nets)
  {
  }

  /** The condition both lookups test: the name contains the policy name and
      the `DNS_RESOLVER` label (read as "" when missing) is the domain. */
  predicate Qualifies(s: NetworkSet, policyName: string, domain: string) {
    Text.Contains(s.name, policyName) && MapIndex(s.labels, SelectorName) == domain
  }

  /** `getNetworkSet` and `getGlobalNetworkSet`: the first qualifying set in
      list order, or the empty set when none qualifies. */
  function GetNetworkSet(policyName: string, domain: string, sets: seq<NetworkSet>): (r: NetworkSet)
    ensures (forall i :: 0 <= i < |sets| ==> !Qualifies(sets[i], policyName, domain)) ==> r == EmptySet
    ensures (exists i :: 0 <= i < |sets| && Qualifies(sets[i], policyName, domain)) ==>
      exists i :: 0 <= i < |sets| && r == sets[i] && Qualifies(sets[i], policyName, domain) &&
        forall j :: 0 <= j < i ==> !Qualifies(sets[j], policyName, domain)
  {
    if |sets| == 0 then EmptySet
    else if Qualifies(sets[0], policyName, domain) then sets[0]
    else
      var r := GetNetworkSet(policyName, domain, sets[1..]);
      assert forall i :: 0 < i < |sets| ==> sets[i] == sets[1..][i - 1];
      r
  }

  /** Lookup from a list is lookup from its head, then from its tail. */
  lemma {:induction false} GetNetworkSetAppend(policyName: string, domain: string, a: seq<NetworkSet>, b: seq<NetworkSet>)
    ensures GetNetworkSet(policyName, domain, a + b) ==
      if exists i :: 0 <= i < |a| && Qualifies(a[i], policyName, domain)
      then GetNetworkSet(policyName, domain, a)
      else GetNetworkSet(policyName, domain, b)
    decreases |a|
  {
    if |a| > 0 {
      assert (a + b)[0] == a[0] && (a + b)[1..] == a[1..] + b;
      GetNetworkSetAppend(policyName, domain, a[1..], b);
      if !Qualifies(a[0], policyName, domain) {
        assert (exists i :: 0 <= i < |a| && Qualifies(a[i], policyName, domain)) <==>
               (exists i :: 0 <= i < |a[1..]| && Qualifies(a[1..][i], policyName, domain)) by {
          forall i | 0 < i < |a|
            ensures a[i] == a[1..][i - 1]
          {
          }
        }
      }
    } else {
      assert a + b == b;
    }
  }

  /** A set built for a policy and a domain is what the lookup for that
      policy and domain returns, once it is listed ahead of any other
      qualifying set. */
  lemma CreateThenGet(policy: Policy, domain: string, nets: seq<string>, before: seq<NetworkSet>, after: seq<NetworkSet>)
    requires forall i :: 0 <= i < |before| ==> !Qualifies(before[i], policy.name, domain)
    ensures GetNetworkSet(policy.name, domain, before + [CreateNetworkSet(policy, domain, nets)] + after)
         == CreateNetworkSet(policy, domain, nets)
  {
    var s := CreateNetworkSet(policy, domain, nets);
    SetNameContainsPolicy(policy.name, domain);
    assert Qualifies(s, policy.name, domain);
    GetNetworkSetAppend(policy.name, domain, before, [s] + after);
    assert before + [s] + after == before + ([s] + after);
  }

  /** The same for a global set. */
  lemma CreateGlobalThenGet(policy: Policy, ruleNumber: int, domain: string, nets: seq<string>)
    ensures GetNetworkSet(policy.name, domain, [CreateGlobalNetworkSet(policy, ruleNumber, domain, nets)])
         == CreateGlobalNetworkSet(policy, ruleNumber, domain, nets)
  {
    SetNameContainsPolicy(policy.name, domain);
  }

  /** A rewritten set is still found under the policy name it had and the
      domain it was rewritten for. */
  lemma UpdateThenGet(policyName: string, s: NetworkSet, domain: string, nets: seq<string>)
    requires Text.Contains(s.name, policyName)
    ensures GetNetworkSet(policyName, domain, [UpdateNetworkSet(policyName, s, domain, nets)])
         == UpdateNetworkSet(policyName, s, domain, nets)
  {
  }

  /** `getNetworkSetList` and `getGlobalNetworkSetList`: the sets whose name
      contains the policy name, in list order. */
  function GetNetworkSetList(policyName: string, sets: seq<NetworkSet>): (r: seq<NetworkSet>)
    ensures |r| <= |sets|
    ensures forall s :: s in r <==> s in sets && Text.Contains(s.name, policyName)
  {
    if |sets| == 0 then []
    else
      var rest := GetNetworkSetList(policyName, sets[1..]);
      assert sets == [sets[0]] + sets[1..];
      if Text.Contains(sets[0].name, policyName) then [sets[0]] + rest else rest
  }

  /** Filtering a concatenation filters each part and keeps them in order;
      with the one-element case below this pins the result down as the
      order-preserving subsequence. */
  lemma {:induction false} GetNetworkSetListAppend(policyName: string, a: seq<NetworkSet>, b: seq<NetworkSet>)
    ensures GetNetworkSetList(policyName, a + b) == GetNetworkSetList(policyName, a) + GetNetworkSetList(policyName, b)
    decreases |a|
  {
    if |a| == 0 {
      assert a + b == b;
    } else {
      assert (a + b)[0] == a[0] && (a + b)[1..] == a[1..] + b;
      GetNetworkSetListAppend(policyName, a[1..], b);
      var head := if Text.Contains(a[0].name, policyName) then [a[0]] else [];
      assert GetNetworkSetList(policyName, a + b) == head + GetNetworkSetList(policyName, a[1..] + b);
      assert GetNetworkSetList(policyName, a) == head + GetNetworkSetList(policyName, a[1..]);
    }
  }

  lemma GetNetworkSetListSingle(policyName: string, s: NetworkSet)
    ensures GetNetworkSetList(policyName, [s]) == if Text.Contains(s.name, policyName) then [s] else []
  {
  }

  /** Filtering twice is filtering once. */
  lemma {:induction false} GetNetworkSetListIdempotent(policyName: string, sets: seq<NetworkSet>)
    ensures GetNetworkSetList(policyName, GetNetworkSetList(policyName, sets)) == GetNetworkSetList(policyName, sets)
    decreases |sets|
  {
    if |sets| > 0 {
      GetNetworkSetListIdempotent(policyName, sets[1..]);
      var rest := GetNetworkSetList(policyName, sets[1..]);
      if Text.Contains(sets[0].name, policyName) {
        GetNetworkSetListAppend(policyName, [sets[0]], rest);
      }
    }
  }

  /** A `List` call: an optional namespace and the labels a listed set must
      carry. The store applies it; the reconcilers only build it. */
  datatype ListQuery = ListQuery(namespace: Option<string>, labels: map<string, string>)

  /** The store-side meaning of a query. */
  predicate Selects(q: ListQuery, s: NetworkSet) {
    (q.namespace.Some? ==> s.namespace == q.namespace.value) &&
    forall k :: k in q.labels ==> k in s.labels && s.labels[k] == q.labels[k]
  }
}
