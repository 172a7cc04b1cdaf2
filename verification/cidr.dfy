/** IPv4 CIDR notation as Go's `net.ParseCIDR` reads it, and the single-pair
    comparison `subnetsMatch` built on it (internal/controller/networkset_controller.go).

    An address is a 32-bit number; a network is an address with all bits
    after its prefix length cleared, together with that prefix length. */
module Cidr {

  import opened Wrappers
  import Text

  const AddressBits: nat := 32

  /** The error `subnetsMatch` returns when either side does not parse. */
  const InvalidCidr: Error := Error("invalid CIDR notation")

  /** A prefix length, at most 32; a six-bit number so that masking stays
      in bit-vector arithmetic. */
  type PrefixLength = p: bv6 | p <= 32

  /** `ip.Mask(CIDRMask(prefix, 32))`: keeps the first `prefix` bits of `a`
      and clears the other `32 - prefix`. */
  function Mask(a: bv32, prefix: PrefixLength): (r: bv32)
    ensures prefix == 0 ==> r == 0
    ensures prefix == 32 ==> r == a
  {
    a & (0xFFFF_FFFF << (32 - prefix))
  }

  /** Masking twice is masking once: a network address is its own network. */
  lemma MaskIdempotent(a: bv32, prefix: PrefixLength)
    ensures Mask(Mask(a, prefix), prefix) == Mask(a, prefix)
  {
  }

  /** Two addresses in the same network for a prefix length are in the same
      network for every shorter one. */
  lemma MaskShorterPrefix(a: bv32, b: bv32, p: PrefixLength, q: PrefixLength)
    requires p <= q
    requires Mask(a, q) == Mask(b, q)
    ensures Mask(a, p) == Mask(b, p)
  {
  }

  /** A canonical network: address already masked to its prefix length. */
  datatype Net = Net(address: bv32, prefix: PrefixLength)

  /** What `net.ParseCIDR` returns: the address as written and its network. */
  datatype Parsed = Parsed(ip: bv32, net: Net)

  predicate IsDigit(c: char) {
    '0' <= c <= '9'
  }

  predicate AllDigits(s: string) {
    forall i :: 0 <= i < |s| ==> IsDigit(s[i])
  }

  /** Decimal value of a string of digits (leading zeros allowed). */
  function DecimalValue(s: string): nat
    requires AllDigits(s)
    decreases |s|
  {
    if |s| == 0 then 0
    else 10 * DecimalValue(s[..|s| - 1]) + (s[|s| - 1] as int - '0' as int)
  }

  /** Splits `s` at every occurrence of `sep`; never empty. */
  function Split(s: string, sep: char): (r: seq<string>)
    ensures |r| >= 1
    ensures forall k :: 0 <= k < |r| ==> sep !in r[k]
    decreases |s|
  {
    match Text.IndexOf(s, sep)
    case None => [s]
    case Some(i) => [s[..i]] + Split(s[i + 1..], sep)
  }

  /** Every character other than the separator lands in some field. */
  lemma {:induction false} SplitCovers(s: string, sep: char, c: char)
    requires c in s && c != sep
    ensures exists k :: 0 <= k < |Split(s, sep)| && c in Split(s, sep)[k]
    decreases |s|
  {
    var fields := Split(s, sep);
    match Text.IndexOf(s, sep)
    case None =>
      assert fields[0] == s;
    case Some(i) =>
      CharOnOneSide(s, i, c);
      if c in s[..i] {
        assert fields[0] == s[..i];
      } else {
        SplitCovers(s[i + 1..], sep, c);
        var rest := Split(s[i + 1..], sep);
        var k :| 0 <= k < |rest| && c in rest[k];
        assert fields[k + 1] == rest[k];
      }
  }

  /** A character of `s` other than `s[i]` is before or after position `i`. */
  lemma CharOnOneSide(s: string, i: nat, c: char)
    requires i < |s| && c in s && c != s[i]
    ensures c in s[..i] || c in s[i + 1..]
  {
    assert s == s[..i] + [s[i]] + s[i + 1..];
  }

  /** One dotted-quad field: one to three digits, no leading zero, at most 255. */
  function ParseOctet(f: string): (r: Option<nat>)
    ensures r.Some? ==> r.value < 256 && |f| > 0 && AllDigits(f)
    ensures r.Some? ==> |f| == 1 || f[0] != '0'
  {
    if |f| == 0 || !AllDigits(f) || (|f| > 1 && f[0] == '0') || DecimalValue(f) > 255 then None
    else Some(DecimalValue(f))
  }

  /** The address whose four bytes, most significant first, are the given octets. */
  function FromOctets(o0: nat, o1: nat, o2: nat, o3: nat): bv32
    requires o0 < 256 && o1 < 256 && o2 < 256 && o3 < 256
  {
    ((o0 as bv32) << 24) | ((o1 as bv32) << 16) | ((o2 as bv32) << 8) | (o3 as bv32)
  }

  /** Dotted-quad IPv4 text `a.b.c.d` as a 32-bit number; anything else
      (including IPv6 text) does not parse. */
  function ParseIpv4(s: string): (r: Option<bv32>)
  {
    var fields := Split(s, '.');
    if |fields| != 4 then None
    else match (ParseOctet(fields[0]), ParseOctet(fields[1]), ParseOctet(fields[2]), ParseOctet(fields[3]))
      case (Some(o0), Some(o1), Some(o2), Some(o3)) => Some(FromOctets(o0, o1, o2, o3))
      case _ => None
  }

  /** Dotted-quad text holds only digits and dots. */
  lemma Ipv4Characters(s: string, c: char)
    requires ParseIpv4(s).Some? && c in s
    ensures IsDigit(c) || c == '.'
  {
    if c != '.' {
      SplitCovers(s, '.', c);
      var fields := Split(s, '.');
      var k :| 0 <= k < |fields| && c in fields[k];
      assert ParseOctet(fields[k]).Some?;
      var j :| 0 <= j < |fields[k]| && fields[k][j] == c;
    }
  }

  /** The text after `/`: at least one digit, all digits, value at most 32. */
  function ParsePrefixLength(m: string): (r: Option<PrefixLength>)
    ensures r.Some? ==> |m| > 0 && AllDigits(m) && r.value as int == DecimalValue(m)
  {
    if |m| == 0 || !AllDigits(m) then None
    else
      var v := DecimalValue(m);
      if v > AddressBits then None else Some(PrefixOf(v))
  }

  function PrefixOf(v: nat): (p: PrefixLength)
    requires v <= AddressBits
    ensures p as int == v
  {
    v as bv6
  }

  /** `net.ParseCIDR` restricted to IPv4: address and prefix length split at
      the first `/`, both must parse; the network is the masked address. */
  function ParseCidr(s: string): (r: Option<Parsed>)
    ensures r.Some? ==> r.value.net.address == Mask(r.value.ip, r.value.net.prefix)
    ensures r.Some? ==> '/' in s
  {
    match Text.IndexOf(s, '/')
    case None => None
    case Some(i) =>
      match (ParseIpv4(s[..i]), ParsePrefixLength(s[i + 1..]))
      case (Some(ip), Some(p)) => Some(Parsed(ip, Net(Mask(ip, p), p)))
      case _ => None
  }

  /** `subnetsMatch`: an error when either side is not CIDR notation;
      otherwise whether both denote the same network, that is the same
      prefix length and the same address once masked to it. */
  function SubnetsMatch(a: string, b: string): (r: Result<bool, Error>)
    ensures r.Failure? <==> ParseCidr(a).None? || ParseCidr(b).None?
    ensures r.Failure? ==> r.error == InvalidCidr
    ensures r.Success? ==>
      var pa, pb := ParseCidr(a).value, ParseCidr(b).value;
      (r.value <==> pa.net.prefix == pb.net.prefix && Mask(pa.ip, pa.net.prefix) == Mask(pb.ip, pa.net.prefix))
  {
    match (ParseCidr(a), ParseCidr(b))
    case (Some(pa), Some(pb)) => Success(pa.net == pb.net)
    case _ => Failure(InvalidCidr)
  }

  lemma SubnetsMatchSymmetric(a: string, b: string)
    ensures SubnetsMatch(a, b) == SubnetsMatch(b, a)
  {
  }

  lemma SubnetsMatchReflexive(a: string)
    requires ParseCidr(a).Some?
    ensures SubnetsMatch(a, a) == Success(true)
  {
  }

  /** Appending `/32` to dotted-quad text gives the single-host network of
      that address. */
  lemma HostCidr(a: string)
    requires ParseIpv4(a).Some?
    ensures ParseCidr(a + "/32") == Some(Parsed(ParseIpv4(a).value, Net(ParseIpv4(a).value, 32)))
  {
    if '/' in a {
      Ipv4Characters(a, '/');
    }
    var ip := ParseIpv4(a).value;
    PrefixThirtyTwo();
    CidrOfParts(a, "32", ip, 32);
    HostSuffixText(a);
  }

  lemma HostSuffixText(a: string)
    ensures a + "/" + "32" == a + "/32"
  {
  }

  lemma PrefixThirtyTwo()
    ensures ParsePrefixLength("32") == Some(32)
  {
    assert "32"[..1] == "3";
    assert "3"[..0] == "";
    assert DecimalValue("3") == 3;
    assert DecimalValue("32") == 32;
  }

  lemma SplitNoSeparator(x: string, sep: char)
    requires sep !in x
    ensures Split(x, sep) == [x]
  {
  }

  lemma SplitAtFirst(x: string, sep: char, y: string)
    requires sep !in x
    ensures Split(x + [sep] + y, sep) == [x] + Split(y, sep)
  {
    var s := x + [sep] + y;
    assert s[|x|] == sep && s[..|x|] == x;
    assert Text.IndexOf(s, sep) == Some(|x|);
    assert s[|x| + 1..] == y;
  }

  /** Joins non-empty `fields` with `sep` between neighbours. */
  function Join(fields: seq<string>, sep: char): string
    requires |fields| >= 1
  {
    if |fields| == 1 then fields[0] else fields[0] + [sep] + Join(fields[1..], sep)
  }

  /** Splitting undoes joining when no field holds the separator. */
  lemma {:induction false} SplitJoin(fields: seq<string>, sep: char)
    requires |fields| >= 1
    requires forall k :: 0 <= k < |fields| ==> sep !in fields[k]
    ensures Split(Join(fields, sep), sep) == fields
    decreases |fields|
  {
    if |fields| == 1 {
      SplitNoSeparator(fields[0], sep);
    } else {
      SplitJoin(fields[1..], sep);
      SplitAtFirst(fields[0], sep, Join(fields[1..], sep));
      assert fields == [fields[0]] + fields[1..];
    }
  }

  /** Four well-formed fields joined by dots parse to the address whose
      bytes they are, most significant first. */
  lemma DottedQuad(fields: seq<string>)
    requires |fields| == 4
    requires forall k :: 0 <= k < 4 ==> ParseOctet(fields[k]).Some?
    ensures ParseIpv4(Join(fields, '.')) ==
      Some(FromOctets(ParseOctet(fields[0]).value, ParseOctet(fields[1]).value,
                      ParseOctet(fields[2]).value, ParseOctet(fields[3]).value))
  {
    assert forall k :: 0 <= k < 4 ==> AllDigits(fields[k]);
    SplitJoin(fields, '.');
  }

  /** Joining the fields of a split restores the text. */
  lemma {:induction false} JoinSplit(s: string, sep: char)
    ensures Join(Split(s, sep), sep) == s
    decreases |s|
  {
    match Text.IndexOf(s, sep)
    case None =>
    case Some(i) =>
      JoinSplit(s[i + 1..], sep);
      assert Split(s, sep)[1..] == Split(s[i + 1..], sep);
      assert s == s[..i] + [sep] + s[i + 1..];
  }

  /** Conversely to `DottedQuad`, every text that parses as an address is
      four well-formed fields joined by dots, and parses to their bytes. */
  lemma Ipv4Fields(s: string)
    requires ParseIpv4(s).Some?
    ensures exists fields: seq<string> ::
              (|fields| == 4 && s == Join(fields, '.') &&
               (forall k :: 0 <= k < 4 ==> ParseOctet(fields[k]).Some?) &&
               ParseIpv4(s) == Some(FromOctets(ParseOctet(fields[0]).value, ParseOctet(fields[1]).value,
                                               ParseOctet(fields[2]).value, ParseOctet(fields[3]).value)))
  {
    var fields := Split(s, '.');
    JoinSplit(s, '.');
    Ipv4FieldsParse(s);
    assert s == Join(fields, '.');
  }

  lemma Ipv4FieldsParse(s: string)
    requires ParseIpv4(s).Some?
    ensures |Split(s, '.')| == 4
    ensures forall k :: 0 <= k < 4 ==> ParseOctet(Split(s, '.')[k]).Some?
    ensures ParseIpv4(s) == Some(FromOctets(ParseOctet(Split(s, '.')[0]).value, ParseOctet(Split(s, '.')[1]).value,
                                            ParseOctet(Split(s, '.')[2]).value, ParseOctet(Split(s, '.')[3]).value))
  {
  }

  lemma SlashAt(a: string, m: string)
    requires '/' !in a
    ensures Text.IndexOf(a + "/" + m, '/') == Some(|a|)
    ensures (a + "/" + m)[..|a|] == a && (a + "/" + m)[|a| + 1..] == m
  {
    var s := a + "/" + m;
    assert s[|a|] == '/' && s[..|a|] == a;
  }

  /** Text with a single `/` between dotted-quad text and a prefix length
      parses as that address, masked to that prefix length. */
  lemma CidrOfParts(a: string, m: string, ip: bv32, p: PrefixLength)
    requires '/' !in a
    requires ParseIpv4(a) == Some(ip) && ParsePrefixLength(m) == Some(p)
    ensures ParseCidr(a + "/" + m) == Some(Parsed(ip, Net(Mask(ip, p), p)))
  {
    SlashAt(a, m);
  }

  /** A prefix length that does not parse makes the whole text invalid. */
  lemma CidrBadPrefix(a: string, m: string)
    requires '/' !in a
    requires ParsePrefixLength(m).None?
    ensures ParseCidr(a + "/" + m).None?
  {
    SlashAt(a, m);
  }

  /** An address part that does not parse makes the whole text invalid. */
  lemma CidrBadAddress(a: string, m: string)
    requires '/' !in a
    requires ParseIpv4(a).None?
    ensures ParseCidr(a + "/" + m).None?
  {
    SlashAt(a, m);
  }

  /** 10.0.0.5 and 10.0.0.0 share their /24 network but not their /32 one;
      10.0.0.0/24 and 10.0.0.0/25 have the same address but differ in length. */
  lemma MaskExamples()
    ensures Mask(0x0A00_0005, 24) == Mask(0x0A00_0000, 24) == 0x0A00_0000
    ensures Mask(0x0A00_0005, 32) != Mask(0x0A00_0000, 32)
    ensures Mask(0x0A00_0000, 25) == 0x0A00_0000
  {
  }

  /** Two addresses with the same prefix length and the same network match,
      however the host bits are written. */
  lemma SameNetworkMatches(a: string, b: string, m: string, x: bv32, y: bv32, p: PrefixLength)
    requires '/' !in a && '/' !in b
    requires ParseIpv4(a) == Some(x) && ParseIpv4(b) == Some(y) && ParsePrefixLength(m) == Some(p)
    requires Mask(x, p) == Mask(y, p)
    ensures SubnetsMatch(a + "/" + m, b + "/" + m) == Success(true)
  {
    CidrOfParts(a, m, x, p);
    CidrOfParts(b, m, y, p);
  }

  /** Different prefix lengths never match, even on the same address. */
  lemma DifferentPrefixesDiffer(a: string, m: string, n: string, x: bv32, p: PrefixLength, q: PrefixLength)
    requires '/' !in a
    requires ParseIpv4(a) == Some(x) && ParsePrefixLength(m) == Some(p) && ParsePrefixLength(n) == Some(q)
    requires p != q
    ensures SubnetsMatch(a + "/" + m, a + "/" + n) == Success(false)
  {
    CidrOfParts(a, m, x, p);
    CidrOfParts(a, n, x, q);
  }
}
