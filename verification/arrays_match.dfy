/** `arraysMatch` (internal/controller/networkset_controller.go): whether a
    freshly resolved CIDR list and a stored one describe the same networks.
    Both lists are sorted as strings and then compared position by
    position with `subnetsMatch`. */
module CidrLists {

  import opened Wrappers
  import opened Cidr
  import opened Sorting
  import opened Sequences

  /** A comparison of one pair of entries: an error, or whether they match. */
  type PairTest = (string, string) -> Result<bool, Error>

  /** The first `k` positions of `xs` and `ys` hold matching entries. */
  ghost predicate PairsMatchUpTo(test: PairTest, xs: seq<string>, ys: seq<string>, k: nat)
    requires |xs| == |ys| && k <= |xs|
  {
    forall j :: 0 <= j < k ==> test(xs[j], ys[j]) == Success(true)
  }

  /** Some pair before which all pairs match is malformed. */
  ghost predicate MalformedBeforeMismatch(test: PairTest, xs: seq<string>, ys: seq<string>)
    requires |xs| == |ys|
  {
    exists k :: 0 <= k < |xs| && PairsMatchUpTo(test, xs, ys, k) && test(xs[k], ys[k]).Failure?
  }

  /** The positional loop of `arraysMatch`: the first malformed pair is an
      error, the first mismatched pair is `false`, and `true` needs every
      pair to match. The pair comparison is a parameter so that the shape of
      the loop is reasoned about apart from CIDR parsing. */
  function ComparePairs(test: PairTest, xs: seq<string>, ys: seq<string>): (r: Result<bool, Error>)
    requires |xs| == |ys|
    ensures r == Success(true) <==> PairsMatchUpTo(test, xs, ys, |xs|)
    ensures r.Failure? <==> MalformedBeforeMismatch(test, xs, ys)
    ensures r.Failure? ==> exists k :: 0 <= k < |xs| && test(xs[k], ys[k]) == r
  {
    if |xs| == 0 then Success(true)
    else
      match test(xs[0], ys[0])
      case Failure(e) =>
        assert PairsMatchUpTo(test, xs, ys, 0);
        Failure(e)
      case Success(false) =>
        assert forall k :: 0 <= k < |xs| && PairsMatchUpTo(test, xs, ys, k) ==> k == 0;
        Success(false)
      case Success(true) =>
        var r := ComparePairs(test, xs[1..], ys[1..]);
        TailShift(test, xs, ys);
        TailWitness(test, xs, ys, r);
        r
  }

  /** Dropping a matching first pair shifts every position down by one. */
  lemma ShiftPrefix(test: PairTest, xs: seq<string>, ys: seq<string>, k: nat)
    requires |xs| == |ys| && 0 < k <= |xs|
    requires test(xs[0], ys[0]) == Success(true)
    ensures PairsMatchUpTo(test, xs, ys, k) <==> PairsMatchUpTo(test, xs[1..], ys[1..], k - 1)
  {
    if PairsMatchUpTo(test, xs[1..], ys[1..], k - 1) {
      forall j | 0 < j < k
        ensures test(xs[j], ys[j]) == Success(true)
      {
        assert xs[1..][j - 1] == xs[j] && ys[1..][j - 1] == ys[j];
      }
    }
  }

  /** When the first pair matches, the outcome over the whole lists is the
      outcome over their tails. */
  lemma TailShift(test: PairTest, xs: seq<string>, ys: seq<string>)
    requires |xs| == |ys| > 0
    requires test(xs[0], ys[0]) == Success(true)
    ensures PairsMatchUpTo(test, xs, ys, |xs|) <==> PairsMatchUpTo(test, xs[1..], ys[1..], |xs| - 1)
    ensures MalformedBeforeMismatch(test, xs, ys) <==> MalformedBeforeMismatch(test, xs[1..], ys[1..])
  {
    var xt, yt := xs[1..], ys[1..];
    ShiftPrefix(test, xs, ys, |xs|);
    if MalformedBeforeMismatch(test, xs, ys) {
      var k :| 0 <= k < |xs| && PairsMatchUpTo(test, xs, ys, k) && test(xs[k], ys[k]).Failure?;
      assert k != 0;
      ShiftPrefix(test, xs, ys, k);
      assert xt[k - 1] == xs[k] && yt[k - 1] == ys[k];
    }
    if MalformedBeforeMismatch(test, xt, yt) {
      var k :| 0 <= k < |xt| && PairsMatchUpTo(test, xt, yt, k) && test(xt[k], yt[k]).Failure?;
      ShiftPrefix(test, xs, ys, k + 1);
      assert xt[k] == xs[k + 1] && yt[k] == ys[k + 1];
    }
  }

  /** A pair of the tails is a pair of the whole lists. */
  lemma TailWitness(test: PairTest, xs: seq<string>, ys: seq<string>, r: Result<bool, Error>)
    requires |xs| == |ys| > 0
    requires r.Failure? ==> exists k :: 0 <= k < |xs| - 1 && test(xs[1..][k], ys[1..][k]) == r
    ensures r.Failure? ==> exists k :: 0 <= k < |xs| && test(xs[k], ys[k]) == r
  {
    if r.Failure? {
      var k :| 0 <= k < |xs| - 1 && test(xs[1..][k], ys[1..][k]) == r;
      assert test(xs[k + 1], ys[k + 1]) == r;
    }
  }

  /** The first mismatching pair ends the comparison with `false`, even when
      a later pair is malformed. */
  lemma {:induction false} MismatchBeforeMalformed(test: PairTest, xs: seq<string>, ys: seq<string>, k: nat)
    requires |xs| == |ys| && k < |xs|
    requires PairsMatchUpTo(test, xs, ys, k)
    requires test(xs[k], ys[k]) == Success(false)
    ensures ComparePairs(test, xs, ys) == Success(false)
    decreases k
  {
    if k > 0 {
      ShiftPrefix(test, xs, ys, k);
      assert xs[1..][k - 1] == xs[k] && ys[1..][k - 1] == ys[k];
      MismatchBeforeMalformed(test, xs[1..], ys[1..], k - 1);
    }
  }

  /** The first malformed pair ends the comparison with its error, even when
      a later pair mismatches. */
  lemma {:induction false} MalformedBeforeMismatchFails(test: PairTest, xs: seq<string>, ys: seq<string>, k: nat)
    requires |xs| == |ys| && k < |xs|
    requires PairsMatchUpTo(test, xs, ys, k)
    requires test(xs[k], ys[k]).Failure?
    ensures ComparePairs(test, xs, ys) == test(xs[k], ys[k])
    decreases k
  {
    if k > 0 {
      ShiftPrefix(test, xs, ys, k);
      assert xs[1..][k - 1] == xs[k] && ys[1..][k - 1] == ys[k];
      MalformedBeforeMismatchFails(test, xs[1..], ys[1..], k - 1);
    }
  }

  /** `arraysMatch`: lists of different lengths never match and nothing is
      parsed; otherwise the outcome is that of the positional comparison of
      the two sorted copies. */
  function ArraysMatch(a: seq<string>, b: seq<string>): (r: Result<bool, Error>)
    ensures |a| != |b| ==> r == Success(false)
    ensures |a| == |b| ==>
      (r == Success(true) <==> PairsMatchUpTo(SubnetsMatch, SortStrings(a), SortStrings(b), |a|))
    ensures |a| == |b| ==> (r.Failure? <==> MalformedBeforeMismatch(SubnetsMatch, SortStrings(a), SortStrings(b)))
    ensures r.Failure? ==> r.error == InvalidCidr
  {
    if |a| != |b| then Success(false)
    else ComparePairs(SubnetsMatch, SortStrings(a), SortStrings(b))
  }

  /** The first list as `arraysMatch` leaves it for its caller: both lists
      are sorted in place, which happens only when their lengths agree. */
  function SortedByCompare(a: seq<string>, b: seq<string>): (r: seq<string>)
    ensures multiset(r) == multiset(a)
    ensures |a| == |b| ==> Sorted(r)
    ensures |a| != |b| ==> r == a
  {
    if |a| == |b| then SortStrings(a) else a
  }

  /** Pairs compare the same way whichever list comes first. */
  lemma {:induction false} ComparePairsSymmetric(xs: seq<string>, ys: seq<string>)
    requires |xs| == |ys|
    ensures ComparePairs(SubnetsMatch, xs, ys) == ComparePairs(SubnetsMatch, ys, xs)
    decreases |xs|
  {
    if |xs| > 0 {
      SubnetsMatchSymmetric(xs[0], ys[0]);
      ComparePairsSymmetric(xs[1..], ys[1..]);
    }
  }

  /** Reordering either list does not change the outcome, because both are
      sorted before they are compared. */
  lemma ArraysMatchPermutation(a: seq<string>, a': seq<string>, b: seq<string>, b': seq<string>)
    requires multiset(a) == multiset(a') && multiset(b) == multiset(b')
    ensures ArraysMatch(a, b) == ArraysMatch(a', b')
  {
    assert |a| == |multiset(a)| == |multiset(a')| == |a'|;
    assert |b| == |multiset(b)| == |multiset(b')| == |b'|;
    SortPermutationInvariant(a, a');
    SortPermutationInvariant(b, b');
  }

  lemma ArraysMatchSymmetric(a: seq<string>, b: seq<string>)
    ensures ArraysMatch(a, b) == ArraysMatch(b, a)
  {
    if |a| == |b| {
      ComparePairsSymmetric(SortStrings(a), SortStrings(b));
    }
  }

  /** Every entry is CIDR notation. */
  ghost predicate AllValid(xs: seq<string>) {
    forall i :: 0 <= i < |xs| ==> ParseCidr(xs[i]).Some?
  }

  lemma AllValidPermutation(a: seq<string>, b: seq<string>)
    requires multiset(a) == multiset(b) && AllValid(a)
    ensures AllValid(b)
  {
    forall i | 0 <= i < |b|
      ensures ParseCidr(b[i]).Some?
    {
      assert b[i] in multiset(a);
    }
  }

  /** A list of valid CIDRs matches itself. */
  lemma ArraysMatchReflexive(a: seq<string>)
    requires AllValid(a)
    ensures ArraysMatch(a, a) == Success(true)
  {
    var xs := SortStrings(a);
    AllValidPermutation(a, xs);
    forall j | 0 <= j < |xs|
      ensures SubnetsMatch(xs[j], xs[j]) == Success(true)
    {
      SubnetsMatchReflexive(xs[j]);
    }
    assert PairsMatchUpTo(SubnetsMatch, xs, xs, |xs|);
  }

  /** The network an entry denotes; entries that are not CIDR notation are
      given the zero network, which `Networks` never uses. */
  function NetOf(x: string): Net {
    match ParseCidr(x)
    case Some(p) => p.net
    case None => Net(0, 0)
  }

  /** The networks the entries of a list denote, in order. */
  function Networks(xs: seq<string>): (r: seq<Net>)
    ensures |r| == |xs|
    ensures forall i :: 0 <= i < |xs| ==> r[i] == NetOf(xs[i])
  {
    MapSeq(NetOf, xs)
  }

  /** A match means both lists denote the same networks, the same number of
      times each (the converse does not hold: see README). */
  lemma MatchImpliesSameNetworks(a: seq<string>, b: seq<string>)
    requires ArraysMatch(a, b) == Success(true)
    ensures AllValid(a) && AllValid(b)
    ensures multiset(Networks(a)) == multiset(Networks(b))
  {
    var xs, ys := SortStrings(a), SortStrings(b);
    assert PairsMatchUpTo(SubnetsMatch, xs, ys, |xs|);
    assert AllValid(xs) && AllValid(ys);
    AllValidPermutation(xs, a);
    AllValidPermutation(ys, b);
    assert Networks(xs) == Networks(ys);
    MapSeqPermutation(NetOf, xs, a);
    MapSeqPermutation(NetOf, ys, b);
  }
}
