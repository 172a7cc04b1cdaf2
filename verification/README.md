# networkset-controller in Dafny

A model of the decision logic of the networkset-controller Kubernetes
operator. The operator watches Calico network policies. An egress rule
whose destination selector reads `DNS_RESOLVER == '<domain>'` gets a
derived "network set": a Calico object holding the CIDR allow-list the
domain resolves to. The operator then keeps those sets in step with DNS.

The model has these parts, one Dafny module each:

- `NetworkSets` (`networkset.dfy`): the derived objects.
  - `TransformDomain` turns a domain into a name token.
  - `Labels` and `Annotations` are the fixed label and annotation maps.
  - `CreateNetworkSet` and `CreateGlobalNetworkSet` build a set, and
    `UpdateNetworkSet` rewrites one.
  - `GetNetworkSet` and `GetNetworkSetList` are the lookups in a listed
    snapshot.
  - Namespaced and global sets share one datatype; a global set has the
    empty namespace.
- `Selector` (`selector.dfy`): the anchored pattern
  `^DNS_RESOLVER\s==\s'(?P<domain>.*)'$`, written out as a hand matcher
  (`ExtractDomain`) together with the relation it decides (`Matches`).
- `Cidr` (`cidr.dfy`): an IPv4 model of `net.ParseCIDR`.
  - It parses a dotted quad and a prefix length.
  - A network is a 32-bit address masked to a prefix length of at most 32.
  - `SubnetsMatch` compares two entries by network.
- `Sorting` (`sorting.dfy`): `sort.Strings`, as an insertion sort on
  lexicographic order.
- `CidrLists` (`arrays_match.dfy`): `arraysMatch`. Lists of different
  lengths do not match. Otherwise both lists are sorted as strings and
  compared position by position. The first malformed pair is an error,
  and the first mismatched pair is `false`.
- `Sequences` (`sequences.dfy`): mapping a function over a list, and
  what mapping keeps (length, concatenation, permutations).
- `Resolution` (`resolver.dfy`): `resolveDomain`. The DNS lookup is a
  parameter, and `/32` is appended to every answer.
- `Plans` (`plans.dfy`): the early-exit loop shared by every reconciler.
  - Each visited item is passed over, ends the pass with an error, or asks
    for one write.
  - The first write the store rejects ends the pass.
  - `RunSteps` is the recursive definition; `Execute` is the same loop
    written with early returns.
- `PolicyReconcile` (`reconcile.dfy`): one pass of the namespaced and the
  global policy reconcilers, as a planner. It goes from the listed
  snapshot, the outcome of fetching the policy, the resolver and the
  store's answers to the writes to the ordered writes attempted and the
  final outcome.
- `Sweep` (`sweep.dfy`): one tick of the namespaced and the global drift
  sweep. Every listed set whose stored list no longer matches a fresh
  resolution is rewritten, and the first error ends the tick.

The store's answers to writes are an input, `writes(k)`: the outcome of
the `k`-th write attempted in a pass. The DNS lookup is an input function
from a domain to address texts or an error.

## Model

| member | source | states |
|---|---|---|
| NetworkSets.TransformDomain | internal/controller/networkset.go:79-83 | the result has the input's length; each `.` and `:` becomes `-` and every other character stays in place; no `.` or `:` is left |
| NetworkSets.TransformDomainIdempotent | internal/controller/networkset.go:79-83 | transforming twice is transforming once |
| NetworkSets.TransformDomainFixedPoints | internal/controller/networkset.go:79-83 | a domain is its own transform exactly when it holds no `.` and no `:` |
| NetworkSets.Labels | internal/controller/networkset.go:38-44 | the keys are exactly `DNS_RESOLVER`, `parent-networkPolicy` and `control-plane`, mapped to the domain, the policy name and `networksets-operator` |
| NetworkSets.LabelsHaveThreeKeys | internal/controller/networkset.go:38-44 | the label map has three distinct keys |
| NetworkSets.Annotations | internal/controller/networkset.go:47-52 | the keys are exactly `operator` and `control-plane`, mapped to `networksets` and `networksets-operator` |
| NetworkSets.SetNameContainsPolicy | internal/controller/networkset.go:20 | a derived name is non-empty and contains its policy's name, so the name filter of the lookups admits it |
| NetworkSets.CreateNetworkSet | internal/controller/networkset.go:13-29 | kind `NetworkSet` and API version `projectcalico.org/v3`; name is policy name, `-`, transformed domain; namespace is the policy's; labels and annotations are the fixed maps; the allow-list is the input verbatim |
| NetworkSets.CreateGlobalNetworkSet | internal/controller/globalnetworkset.go:11-26 | the same with kind `GlobalNetworkSet` and no namespace |
| NetworkSets.GlobalSetIgnoresRuleNumber | internal/controller/globalnetworkset.go:11-26 | the global builder's result does not depend on the rule number |
| NetworkSets.GlobalAndNamespacedAgree | internal/controller/globalnetworkset.go:11-26 | the two builders differ only in kind and namespace |
| NetworkSets.UpdateNetworkSet | internal/controller/networkset.go:31-35 | labels are rebuilt for the policy name and domain and the allow-list is replaced; kind, API version, name, namespace and annotations are kept; `updateGlobalNetworkset` (globalnetworkset.go:28-32) is the same function |
| NetworkSets.UpdateIdempotent | internal/controller/networkset.go:31-35 | rewriting twice with the same inputs is rewriting once |
| NetworkSets.UpdateOfCreated | internal/controller/networkset.go:13-35 | rewriting a freshly built set for its own policy and domain gives the set built with the new list |
| NetworkSets.GetNetworkSet | internal/controller/networkset.go:54-66 | the empty set when no listed set's name contains the policy name with a `DNS_RESOLVER` label equal to the domain; otherwise the first listed set that does; `getGlobalNetworkSet` (globalnetworkset.go:34-46) is the same lookup |
| NetworkSets.GetNetworkSetAppend | internal/controller/networkset.go:56-63 | lookup in `a + b` is lookup in `a` when `a` holds a qualifying set, else lookup in `b` |
| NetworkSets.CreateThenGet | internal/controller/networkset.go:20-22 | a built set listed after only non-qualifying sets is what the lookup for its policy and domain returns |
| NetworkSets.CreateGlobalThenGet | internal/controller/globalnetworkset.go:18-19 | a built global set is found by the lookup for its policy and domain |
| NetworkSets.UpdateThenGet | internal/controller/networkset.go:31-35 | a rewritten set is found under its policy name and the domain it was rewritten for |
| NetworkSets.GetNetworkSetList | internal/controller/networkset.go:68-77 | no longer than the input; a set is in the result exactly when it is listed and its name contains the policy name; `getGlobalNetworkSetList` (globalnetworkset.go:48-57) is the same filter |
| NetworkSets.GetNetworkSetListAppend | internal/controller/networkset.go:70-74 | filtering a concatenation is concatenating the filtered parts, so list order is kept |
| NetworkSets.GetNetworkSetListSingle | internal/controller/networkset.go:71-73 | one set is kept exactly when its name contains the policy name |
| NetworkSets.GetNetworkSetListIdempotent | internal/controller/networkset.go:68-77 | filtering twice is filtering once |
| Selector.ExtractDomain | internal/controller/networkpolicy_controller.go:45 | a returned domain is the capture of a text the pattern matches, and is 18 characters shorter than the text |
| Selector.ExtractSelector | internal/controller/networkpolicy_controller.go:107-109 | every selector text, with any two `\s` separators and any domain without a newline, gives back its domain; this includes the empty domain and domains holding quotes |
| Selector.ExtractComplete | internal/controller/networkpolicy_controller.go:45 | the matcher returns `d` exactly when the text matches the pattern with capture `d` |
| Selector.MatchUnique | internal/controller/networkpolicy_controller.go:45 | a matched text has one capture |
| Selector.NewlineRejected | internal/controller/networkpolicy_controller.go:45 | a newline inside the quotes is no match |
| Selector.DoubleSpaceRejected | internal/controller/networkpolicy_controller.go:45 | two characters between the keyword and `==`, the first a separator, are no match |
| Selector.OtherOperatorRejected | internal/controller/networkpolicy_controller.go:45 | any two-character operator other than `==` is no match |
| Selector.TrailingTextRejected | internal/controller/networkpolicy_controller.go:45 | text after the closing quote that does not end in a quote is no match |
| Selector.TrailingQuoteCaptured | internal/controller/networkpolicy_controller.go:45 | trailing text that ends in a quote is swallowed by the greedy capture |
| Selector.MissingPrefixRejected | internal/controller/networkpolicy_controller.go:45 | text that does not start with `DNS_RESOLVER` is no match |
| Cidr.Mask | internal/controller/networkset_controller.go:123 | prefix length 0 masks to 0, and prefix length 32 keeps the address |
| Cidr.MaskIdempotent | internal/controller/networkset_controller.go:123 | a masked address is its own network |
| Cidr.MaskShorterPrefix | internal/controller/networkset_controller.go:123 | addresses in the same network for a prefix length are in the same network for every shorter one |
| Cidr.ParseCidr | internal/controller/networkset_controller.go:116-117 | a parsed entry contains `/`, and its network address is its address masked to its prefix length |
| Cidr.CidrOfParts | internal/controller/networkset_controller.go:116-117 | dotted-quad text, `/` and a prefix length parse to that address masked to that length |
| Cidr.CidrBadPrefix | internal/controller/networkset_controller.go:116-121 | a prefix length that does not parse makes the entry invalid |
| Cidr.CidrBadAddress | internal/controller/networkset_controller.go:116-121 | an address part that does not parse makes the entry invalid |
| Cidr.ParseIpv4 | internal/controller/networkset_controller.go:116-117 | the dotted-quad part of `net.ParseCIDR`: exactly four dot-separated fields, each one to three digits without a leading zero and at most 255; `DottedQuad` and `Ipv4Fields` state what it accepts and what it yields in both directions, `Ipv4Characters` the characters it allows |
| Cidr.Ipv4Fields | internal/controller/networkset_controller.go:116-117 | every text that parses as an address is four well-formed fields joined by dots, and parses to their bytes (the converse of `DottedQuad`) |
| Cidr.DottedQuad | internal/controller/networkset_controller.go:116-117 | four well-formed octets joined by dots parse to the address with those bytes, most significant first |
| Cidr.SplitJoin | internal/controller/networkset_controller.go:116-117 | splitting at a separator undoes joining with it |
| Cidr.SubnetsMatch | internal/controller/networkset_controller.go:115-124 | an error, `invalid CIDR notation`, exactly when either side fails to parse; otherwise true exactly when the prefix lengths and the masked addresses are equal |
| Cidr.SubnetsMatchSymmetric | internal/controller/networkset_controller.go:115-124 | the comparison is symmetric |
| Cidr.SubnetsMatchReflexive | internal/controller/networkset_controller.go:115-124 | a valid entry matches itself |
| Cidr.MaskExamples | internal/controller/networkset_controller.go:123 | 10.0.0.5 and 10.0.0.0 share their /24 network but not their /32 network; 10.0.0.0 is its own /25 network |
| Cidr.SameNetworkMatches | internal/controller/networkset_controller.go:123 | two entries with the same prefix length and the same masked address match, whatever the host bits |
| Cidr.DifferentPrefixesDiffer | internal/controller/networkset_controller.go:123 | entries with different prefix lengths do not match, even on the same address |
| Cidr.HostCidr | internal/controller/networkpolicy_controller.go:165 | dotted-quad text with `/32` appended parses to the one-address network of that address |
| Sorting.Insert | internal/controller/networkset_controller.go:132-133 | inserting into a sorted list gives a sorted list holding one more copy of the string |
| Sorting.SortStrings | internal/controller/networkset_controller.go:132-133 | the result is sorted and is a permutation of the input |
| Sorting.SortedUnique | internal/controller/networkset_controller.go:132-133 | two sorted lists holding the same strings are equal |
| Sorting.SortPermutationInvariant | internal/controller/networkset_controller.go:132-133 | permutations of one list sort to the same list |
| CidrLists.ComparePairs | internal/controller/networkset_controller.go:136-146 | `true` exactly when every pair matches; an error exactly when a malformed pair comes before any mismatch, and the error is that pair's |
| CidrLists.MismatchBeforeMalformed | internal/controller/networkset_controller.go:141-143 | the first mismatching pair gives `false`, even when a later pair is malformed |
| CidrLists.MalformedBeforeMismatchFails | internal/controller/networkset_controller.go:137-140 | the first malformed pair gives its error, even when a later pair mismatches |
| CidrLists.SortedByCompare | internal/controller/networkset_controller.go:126-133 | the fresh list as `arraysMatch` leaves it for its caller: the same entries, sorted when the two lengths agree and untouched otherwise, because `sort.Strings` sorts the caller's slice in place only after the length check |
| CidrLists.ArraysMatch | internal/controller/networkset_controller.go:126-147 | `false` without error when the lengths differ; otherwise `true` exactly when the sorted lists match pairwise, and an error, `invalid CIDR notation`, exactly when a malformed pair precedes any mismatch |
| CidrLists.ArraysMatchPermutation | internal/controller/networkset_controller.go:131-136 | reordering either list does not change the outcome |
| CidrLists.ArraysMatchSymmetric | internal/controller/networkset_controller.go:126-147 | swapping the lists does not change the outcome |
| CidrLists.ArraysMatchReflexive | internal/controller/networkset_controller.go:126-147 | a list of valid entries matches itself |
| CidrLists.MatchImpliesSameNetworks | internal/controller/networkset_controller.go:126-147 | a match means both lists are valid and denote the same networks, the same number of times each |
| Resolution.ResolveDomain | internal/controller/networkpolicy_controller.go:156-170 | an error exactly when the lookup fails, and it is the lookup's error; otherwise one entry per answer, in order, each the answer's text followed by `/32` |
| Resolution.ResolvedAreHosts | internal/controller/networkpolicy_controller.go:163-166 | IPv4 answers resolve to the one-address networks of those addresses, so the list is valid CIDR notation |
| Resolution.ResolvedMatchesPermutation | internal/controller/networkset_controller.go:73-81 | a stored list holding a fresh resolution's entries in any order matches it |
| Plans.RunSteps | internal/controller/networkpolicy_controller.go:105-145 | the shared early-exit loop: each visited item attempts at most one write; `RunOutcome`, `RunPrefix`, `RunAttemptsAsked` and `Execute` state how the loop ends and which writes it attempts |
| Plans.RunOutcome | internal/controller/networkpolicy_controller.go:105-145 | every attempted write but the last was accepted; the pass succeeds exactly when no item errs and every write asked for is accepted; a pass that fails with no erring item fails with the store's answer to its last write |
| Plans.RunPrefix | internal/controller/networkpolicy_controller.go:105-145 | the writes attempted are a prefix of those asked for, and all of them when the pass succeeds |
| Plans.RunAttemptsAsked | internal/controller/networkpolicy_controller.go:105-145 | every write attempted is asked for by some item |
| Plans.RunAllAccepted | internal/controller/networkpolicy_controller.go:105-145 | with no erring item and every write accepted, every write asked for is attempted and the pass succeeds |
| Plans.RunStopsAtAbort | internal/controller/networkpolicy_controller.go:111-114 | an erring item ends the pass with its error after the earlier writes; later items are not visited |
| Plans.RunStopsAtRejectedWrite | internal/controller/networkpolicy_controller.go:119-127 | a rejected write ends the pass with the store's error and is the last write attempted |
| Plans.Execute | internal/controller/networkpolicy_controller.go:105-145 | the loop with early returns attempts the same writes, and ends the same way, as the recursive definition |
| PolicyReconcile.PolicyListQuery | internal/controller/networkpolicy_controller.go:68-75 | the query asks for `control-plane=networksets-operator` and `parent-networkPolicy=<request name>`; it has exactly those two labels; it is restricted to the request's namespace, and to that namespace, exactly for the namespaced reconciler, the global one (globalnetworkpolicy_controller.go:64-70) listing cluster-wide |
| PolicyReconcile.RuleStep | internal/controller/networkpolicy_controller.go:106-141 | a non-matching selector does nothing; a rule errs exactly when its domain does not resolve; a rule never deletes |
| PolicyReconcile.Reconcile | internal/controller/networkpolicy_controller.go:62-146 | a failed listing or a failed fetch other than not-found ends the pass with that error and no writes; for a gone policy every write deletes a listed, named set whose name contains the policy name, and the pass succeeds exactly when all its writes were accepted; a present policy never deletes; the global reconciler (globalnetworkpolicy_controller.go:57-142) is the same function with the global builder |
| PolicyReconcile.GonePolicyDeletesAll | internal/controller/networkpolicy_controller.go:84-100 | with every delete accepted, a gone policy's named sets under its name are deleted in listed order and the pass succeeds |
| PolicyReconcile.GonePolicyStopsAtRejectedDelete | internal/controller/globalnetworkpolicy_controller.go:79-96 | a rejected delete ends the pass with the store's error, and the sets after it are left alone |
| PolicyReconcile.FilterAroundKept | internal/controller/networkpolicy_controller.go:85 | a set kept by the name filter splits the filtered list around it |
| PolicyReconcile.OtherRulesIgnored | internal/controller/networkpolicy_controller.go:107-108 | a rule whose selector does not match does nothing |
| PolicyReconcile.FoundSetUpdated | internal/controller/networkpolicy_controller.go:116-122 | a listed set for the rule's domain, whatever it holds, is rewritten with labels rebuilt for the policy and the domain and with the fresh list; the global reconciler (globalnetworkpolicy_controller.go:112-118) does the same |
| PolicyReconcile.UpToDateSetRewritten | internal/controller/networkpolicy_controller.go:116-122 | a listed set for the domain is rewritten even when it is already up to date, so no address comparison is made on this path |
| PolicyReconcile.MissingSetCreated | internal/controller/networkpolicy_controller.go:129-134 | with no listed set for the domain, the rule creates the set built for its policy and domain |
| PolicyReconcile.CreatedSetListed | internal/controller/networkpolicy_controller.go:68-75 | a set the pass creates is one the next pass for the same policy lists |
| PolicyReconcile.SecondPassRewrites | internal/controller/globalnetworkpolicy_controller.go:112-124 | once a created set is listed, the same rule rewrites it instead of creating another |
| PolicyReconcile.SnapshotNotRefreshed | internal/controller/networkpolicy_controller.go:116 | the listing is not refreshed within a pass: two rules for one domain with no listed set both create a set of the same name; with the pure resolver they are the same set |
| PolicyReconcile.ResolveFailureStopsPass | internal/controller/networkpolicy_controller.go:111-114 | a domain that does not resolve ends the pass with the lookup's error after the writes of the earlier rules |
| PolicyReconcile.PresentPolicyWritesAll | internal/controller/globalnetworkpolicy_controller.go:101-141 | with every domain resolving and every write accepted, each matching rule makes one write, in rule order, and the pass succeeds |
| Sweep.SweepSelectsOwned | internal/controller/globalnetworkset_controller.go:49-53 | the sweep lists a set exactly when it carries `control-plane=networksets-operator`, whatever its namespace or parent |
| Sweep.Refreshed | internal/controller/networkset_controller.go:85-95 | a rewrite keeps name, namespace, kind, API version and annotations, rebuilds the labels from the set's own parent label and domain, and stores the given list |
| Sweep.SweepStep | internal/controller/networkset_controller.go:72-102 | a set is rewritten exactly when its domain resolves and the fresh list does not match the stored one, and the rewrite is an update with the fresh list, sorted when it is as long as the stored one; it errs exactly when the lookup or the comparison fails |
| Sweep.Sweep | internal/controller/networkset_controller.go:59-105 | a cancelled tick does nothing and succeeds; a failed listing ends the tick with its error; a tick only ever updates; the global tick (globalnetworkset_controller.go:57-103) is the same function |
| Sweep.SweepRewritesStale | internal/controller/globalnetworkset_controller.go:76-92 | every write of a tick rewrites a listed set whose stored list does not match a fresh resolution of its own label's domain, storing that resolution (sorted when the lengths agree) |
| Sweep.ResolveFailureStopsSweep | internal/controller/globalnetworkset_controller.go:71-74 | a failed lookup ends the tick with its error, and later sets are not visited |
| Sweep.CompareFailureStopsSweep | internal/controller/networkset_controller.go:78-81 | a malformed entry ends the tick with `invalid CIDR notation` |
| Sweep.RejectedRewriteStopsSweep | internal/controller/globalnetworkset_controller.go:94-98 | a rejected rewrite ends the tick with the store's error |
| Sweep.InStepSkipped | internal/controller/networkset_controller.go:77-83 | a set storing a fresh resolution of IPv4 answers, in any order, is left alone |
| Sweep.QuietSweep | internal/controller/networkset_controller.go:71-103 | when every listed set is in step with DNS, the tick writes nothing and succeeds |
| Sweep.RefreshedInStep | internal/controller/networkset_controller.go:85-95 | a rewritten set is in step at the next tick if DNS gives the same IPv4 answers |
| Sweep.SweepKeepsCreated | internal/controller/networkset_controller.go:51-55 | a set a policy pass creates is listed by the sweep, and is left alone when DNS gives the same IPv4 answers |

## Left out

- Metrics: the Prometheus counters in monitoring/metrics.go and their `.Inc()` calls are observability only. monitoring/metrics.go is not part of this model.
- Logging calls are not modelled.
- `SetupWithManager` and concurrent reconciles: concurrency and framework wiring, and so is any interleaving between a policy pass and a sweep.
- The ticker loop: one tick's body is modelled, with a `cancelled` flag in place of `ctx.Done()`.
- The controller-runtime client. The listed snapshot, the fetch outcome and each write's outcome are inputs. Label filtering on the store side is taken as given; `ListQuery` and `Selects` describe it, but nothing checks that the listed snapshot satisfies it.
- `net.LookupIP` and `IP.String` are the `Resolver` parameter, a pure function, so which lookups a pass makes is not recorded.
- Cidr.ParseCidr: parses IPv4 only. `net.ParseCIDR` also accepts IPv6 text, and `resolveDomain` appends `/32` to IPv6 answers too. In the model such entries make `arraysMatch` fail, while in the original they parse as IPv6 /32 networks.
- Go aliasing is modelled only where it shows. `sort.Strings` inside `arraysMatch` sorts the caller's slices in place; the sweep then stores the fresh list in that order, which `SortedByCompare` models. The sort of the stored list is overwritten by the update and so is not modelled. The lookup returns the address of a loop variable; the model returns the value, with the same result.
- PolicyReconcile.SnapshotNotRefreshed: the two creates are the same set only because the `Resolver` is a pure function. In the original each rule makes its own lookup, and two lookups may answer differently; the listing snapshot, which is what the lemma is about, is the same either way.
- TypeMeta and ObjectMeta fields other than kind, API version, name, namespace, labels and annotations are not modelled.
- NetworkSets.GetNetworkSetList: the contract states length, membership and order (through GetNetworkSetListAppend and GetNetworkSetListSingle), not an explicit multiset count.
- CidrLists.MatchImpliesSameNetworks: only one direction is proved. Sorting is by text, not by network, so lists holding the same networks written differently (`10.0.0.5/24` and `10.0.0.0/24`, say) can sort into different positions and fail to match.
- The policy path rewrites an existing set on every pass without comparing lists, and a delete failure ends a gone policy's pass. The model does both, because the code does.

