/** `resolveDomain` (internal/controller/networkpolicy_controller.go): the
    addresses a domain resolves to, each written as a one-address CIDR by
    appending `/32` to the address text. The lookup itself (`net.LookupIP`
    and `IP.String`) is a parameter. */
module Resolution {

  import opened Wrappers
  import opened Cidr
  import opened CidrLists
  import opened Sequences

  /** A DNS lookup: the address texts of a domain, or the lookup's error. */
  type Resolver = string -> Result<seq<string>, Error>

  const HostSuffix: string := "/32"

  /** `resolveDomain`: the lookup's error unchanged, or one entry per
      address, in the lookup's order, with `/32` appended whatever the
      address family. */
  function ResolveDomain(resolve: Resolver, domain: string): (r: Result<seq<string>, Error>)
    ensures resolve(domain).Failure? <==> r.Failure?
    ensures r.Failure? ==> r.error == resolve(domain).error
    ensures r.Success? ==> |r.value| == |resolve(domain).value|
    ensures r.Success? ==> forall i :: 0 <= i < |r.value| ==> r.value[i] == resolve(domain).value[i] + HostSuffix
  {
    match resolve(domain)
    case Failure(e) => Failure(e)
    case Success(addresses) => Success(MapSeq(a => a + HostSuffix, addresses))
  }

  /** Every answer is dotted-quad IPv4 text. */
  ghost predicate AllIpv4(addresses: seq<string>) {
    forall i :: 0 <= i < |addresses| ==> ParseIpv4(addresses[i]).Some?
  }

  /** IPv4 answers come back as single-host networks of those addresses, so
      the resolved list is valid CIDR notation throughout. */
  lemma ResolvedAreHosts(resolve: Resolver, domain: string)
    requires resolve(domain).Success? && AllIpv4(resolve(domain).value)
    ensures ResolveDomain(resolve, domain).Success?
    ensures forall i :: 0 <= i < |resolve(domain).value| ==>
      var ip := ParseIpv4(resolve(domain).value[i]).value;
      ParseCidr(ResolveDomain(resolve, domain).value[i]) == Some(Parsed(ip, Net(ip, 32)))
    ensures AllValid(ResolveDomain(resolve, domain).value)
  {
    var addresses := resolve(domain).value;
    var nets := ResolveDomain(resolve, domain).value;
    forall i | 0 <= i < |addresses|
      ensures ParseCidr(nets[i]) == Some(Parsed(ParseIpv4(addresses[i]).value, Net(ParseIpv4(addresses[i]).value, 32)))
    {
      HostCidr(addresses[i]);
    }
  }

  /** A stored list holding the same entries as a fresh resolution of IPv4
      answers, in any order, matches it. */
  lemma ResolvedMatchesPermutation(resolve: Resolver, domain: string, stored: seq<string>)
    requires resolve(domain).Success? && AllIpv4(resolve(domain).value)
    requires multiset(stored) == multiset(ResolveDomain(resolve, domain).value)
    ensures ArraysMatch(ResolveDomain(resolve, domain).value, stored) == Success(true)
  {
    var nets := ResolveDomain(resolve, domain).value;
    ResolvedAreHosts(resolve, domain);
    ArraysMatchReflexive(nets);
    ArraysMatchPermutation(nets, nets, nets, stored);
  }
}
