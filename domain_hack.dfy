/**
 * The domain-hack matcher (`findByTld`, `findDomainHacks`).
 *
 * A catalog TLD is a candidate for a normalised query when it is a literal
 * suffix of it and leaves a non-empty left part; each candidate becomes one
 * suggestion `left.tld`, in catalog order. The DNS-over-HTTPS lookup is an
 * oracle `ns` that gives the number of records in the Answer section of the
 * NS query for a domain name; a suggestion is available exactly when that
 * number is zero.
 */
module DomainHack {
  import opened Wrappers
  import Text
  import Query
  import Catalog

  /** `DomainHackSuggestion`. */
  datatype Suggestion = Suggestion(domain: string, host: string, tld: string, left: string, available: bool)

  /** `s` ends with `suffix`. */
  predicate EndsWith(s: string, suffix: string) {
    |suffix| <= |s| && s[|s| - |suffix|..] == suffix
  }

  /** `s` ends with `suffix` exactly when some `left` completes `suffix` to `s`. */
  lemma EndsWithSplit(s: string, suffix: string)
    ensures EndsWith(s, suffix) <==> exists left: string :: left + suffix == s
  {
    if EndsWith(s, suffix) {
      assert s[..|s| - |suffix|] + suffix == s;
    }
    forall left: string | left + suffix == s ensures EndsWith(s, suffix) {
      assert s[|left|..] == suffix;
    }
  }

  /** `tld` ends `s` and leaves a non-empty left part. */
  predicate IsCandidate(s: string, tld: string) {
    EndsWith(s, tld) && |tld| < |s|
  }

  /**
   * `x` is the suggestion for the split of `s` into a non-empty left part and
   * `x.tld`: the domain joins the two with a dot, the host is the domain, and
   * the domain is available exactly when the resolver reports no answer record.
   */
  predicate Describes(x: Suggestion, s: string, ns: string -> nat) {
    && |x.left| > 0
    && x.left + x.tld == s
    && x.domain == x.left + "." + x.tld
    && x.host == x.domain
    && (x.available <==> ns(x.domain) == 0)
  }

  /** `findByTld`: the suggestion for one TLD, or `None` where the source returns null. */
  function FindByTld(s: string, tld: string, ns: string -> nat): (r: Option<Suggestion>)
    ensures r.Some? <==> IsCandidate(s, tld)
    ensures r.Some? ==> r.value.tld == tld && Describes(r.value, s, ns)
  {
    if !EndsWith(s, tld) then None
    else
      var left := s[..|s| - |tld|];
      if left == [] then None
      else
        assert left + tld == s;
        var domain := left + "." + tld;
        Some(Suggestion(domain, domain, tld, left, ns(domain) == 0))
  }

  /** A split of `s` determines its suggestion. */
  lemma DescribesUnique(x: Suggestion, y: Suggestion, s: string, ns: string -> nat)
    requires Describes(x, s, ns) && Describes(y, s, ns) && x.tld == y.tld
    ensures x == y
  {
    assert x.left == s[..|s| - |x.tld|];
    assert y.left == s[..|s| - |y.tld|];
  }

  /** `findByTld` is non-null exactly when `s` splits into a non-empty left part and `tld`. */
  lemma FindByTldSomeIff(s: string, tld: string, ns: string -> nat)
    ensures FindByTld(s, tld, ns).Some? <==> exists left: string :: |left| > 0 && left + tld == s
  {
  }

  /** For any non-empty `left`, the query `left + tld` yields `left.tld`. */
  lemma FindByTldSplit(left: string, tld: string, ns: string -> nat)
    requires |left| > 0
    ensures FindByTld(left + tld, tld, ns)
         == Some(Suggestion(left + "." + tld, left + "." + tld, tld, left, ns(left + "." + tld) == 0))
  {
  }

  /** A query equal to a TLD yields no suggestion for that TLD. */
  lemma FindByTldWholeQuery(tld: string, ns: string -> nat)
    ensures FindByTld(tld, tld, ns) == None
  {
  }

  /** `findByTld` applied to every catalog entry, in catalog order. */
  function Probe(s: string, catalog: seq<string>, ns: string -> nat): (r: seq<Option<Suggestion>>)
    ensures |r| == |catalog|
  {
    if catalog == [] then []
    else [FindByTld(s, catalog[0], ns)] + Probe(s, catalog[1..], ns)
  }

  /** Drops the `None` entries: the present values, in order. */
  function Present<T>(xs: seq<Option<T>>): (r: seq<T>)
    ensures |r| <= |xs|
    ensures forall y | y in r :: Some(y) in xs
  {
    if xs == [] then []
    else
      match xs[0]
      case None => Present(xs[1..])
      case Some(y) => [y] + Present(xs[1..])
  }

  /** Every present value is kept, as often as it occurs, and nothing else. */
  lemma {:induction false} PresentKeeps<T(!new)>(xs: seq<Option<T>>)
    ensures forall y :: y in Present(xs) <==> Some(y) in xs
    ensures forall y :: multiset(Present(xs))[y] == multiset(xs)[Some(y)]
  {
    if xs != [] {
      PresentKeeps(xs[1..]);
      assert xs == [xs[0]] + xs[1..];
      assert multiset(xs) == multiset{xs[0]} + multiset(xs[1..]);
    }
  }

  /** Dropping the `None` entries keeps the order: it distributes over concatenation. */
  lemma {:induction false} PresentAppend<T>(xs: seq<Option<T>>, ys: seq<Option<T>>)
    ensures Present(xs + ys) == Present(xs) + Present(ys)
  {
    if xs == [] {
      assert xs + ys == ys;
    } else {
      assert (xs + ys)[1..] == xs[1..] + ys;
      PresentAppend(xs[1..], ys);
    }
  }

  /** `findDomainHacks`: normalise, stop on an empty query, otherwise probe every TLD and keep the hits. */
  function FindDomainHacks(q: string, catalog: seq<string>, ns: string -> nat): (r: seq<Suggestion>)
    ensures |r| <= |catalog|
    ensures forall x | x in r :: x.tld in catalog && Describes(x, Query.Normalize(q), ns)
  {
    var s := Query.Normalize(q);
    if s == [] then []
    else
      ProbeMembers(s, catalog, ns);
      Present(Probe(s, catalog, ns))
  }

  lemma {:induction false} ProbeMembers(s: string, catalog: seq<string>, ns: string -> nat)
    ensures |Probe(s, catalog, ns)| == |catalog|
    ensures forall y | Some(y) in Probe(s, catalog, ns) :: y.tld in catalog && Describes(y, s, ns)
  {
    if catalog != [] {
      ProbeMembers(s, catalog[1..], ns);
    }
  }

  /** The `k`-th entry of the map is `findByTld` on the `k`-th catalog entry. */
  lemma {:induction false} ProbeAt(s: string, catalog: seq<string>, ns: string -> nat)
    ensures forall k | 0 <= k < |catalog| :: Probe(s, catalog, ns)[k] == FindByTld(s, catalog[k], ns)
  {
    if catalog != [] {
      ProbeAt(s, catalog[1..], ns);
      assert forall k | 1 <= k < |catalog| :: catalog[k] == catalog[1..][k - 1];
    }
  }

  /** The catalog entries that are candidates for `s`, in catalog order. */
  function Candidates(s: string, catalog: seq<string>): (r: seq<string>)
    ensures |r| <= |catalog|
    ensures forall k | 0 <= k < |r| :: r[k] in catalog && IsCandidate(s, r[k])
  {
    if catalog == [] then []
    else if IsCandidate(s, catalog[0]) then [catalog[0]] + Candidates(s, catalog[1..])
    else Candidates(s, catalog[1..])
  }

  /**
   * Each catalog entry that is a candidate appears among the candidates as
   * often as in the catalog; no other string appears.
   */
  lemma {:induction false} CandidatesCount(s: string, catalog: seq<string>, t: string)
    ensures multiset(Candidates(s, catalog))[t] == if IsCandidate(s, t) then multiset(catalog)[t] else 0
  {
    if catalog != [] {
      CandidatesCount(s, catalog[1..], t);
      assert catalog == [catalog[0]] + catalog[1..];
    }
  }

  /** `a` is `b` with some entries deleted. */
  predicate IsSubsequence(a: seq<string>, b: seq<string>) {
    if a == [] then true
    else if b == [] then false
    else (a[0] == b[0] && IsSubsequence(a[1..], b[1..])) || IsSubsequence(a, b[1..])
  }

  lemma {:induction false} CandidatesSubsequence(s: string, catalog: seq<string>)
    ensures IsSubsequence(Candidates(s, catalog), catalog)
  {
    if catalog != [] {
      CandidatesSubsequence(s, catalog[1..]);
      var r := Candidates(s, catalog);
      if IsCandidate(s, catalog[0]) {
        assert r[1..] == Candidates(s, catalog[1..]);
      } else if r != [] {
        assert IsSubsequence(r, catalog[1..]);
      }
    }
  }

  lemma {:induction false} CandidatesSorted(s: string, catalog: seq<string>)
    requires Catalog.Sorted(catalog)
    ensures Catalog.Sorted(Candidates(s, catalog))
  {
    if catalog != [] {
      var tail := catalog[1..];
      assert Catalog.Sorted(tail) by {
        forall i, j | 0 <= i < j < |tail| ensures Catalog.Precedes(tail[i], tail[j]) {
          assert tail[i] == catalog[i + 1] && tail[j] == catalog[j + 1];
        }
      }
      CandidatesSorted(s, tail);
      var r := Candidates(s, catalog);
      if IsCandidate(s, catalog[0]) {
        forall i, j | 0 <= i < j < |r| ensures Catalog.Precedes(r[i], r[j]) {
          if i == 0 {
            assert r[j] in Candidates(s, tail);
            var k :| 0 <= k < |tail| && tail[k] == r[j];
            assert catalog[k + 1] == r[j];
          } else {
            assert r[i] == Candidates(s, tail)[i - 1] && r[j] == Candidates(s, tail)[j - 1];
          }
        }
      }
    }
  }

  /**
   * Reference reading of the matcher: one suggestion per candidate TLD, in
   * catalog order, each describing the split of the normalised query.
   */
  lemma {:induction false} PresentProbe(s: string, catalog: seq<string>, ns: string -> nat)
    ensures |Present(Probe(s, catalog, ns))| == |Candidates(s, catalog)|
    ensures forall k | 0 <= k < |Candidates(s, catalog)| ::
              Present(Probe(s, catalog, ns))[k].tld == Candidates(s, catalog)[k]
              && Describes(Present(Probe(s, catalog, ns))[k], s, ns)
  {
    if catalog != [] {
      var head := FindByTld(s, catalog[0], ns);
      var tail := Probe(s, catalog[1..], ns);
      assert Probe(s, catalog, ns) == [head] + tail;
      assert ([head] + tail)[1..] == tail;
      PresentProbe(s, catalog[1..], ns);
      if head.Some? {
        assert Present(Probe(s, catalog, ns)) == [head.value] + Present(tail);
        assert Candidates(s, catalog) == [catalog[0]] + Candidates(s, catalog[1..]);
      } else {
        assert Present(Probe(s, catalog, ns)) == Present(tail);
        assert Candidates(s, catalog) == Candidates(s, catalog[1..]);
      }
    }
  }

  /** The TLD of each suggestion. */
  function Tlds(r: seq<Suggestion>): (t: seq<string>)
    ensures |t| == |r|
  {
    seq(|r|, k requires 0 <= k < |r| => r[k].tld)
  }

  /**
   * The result holds exactly one suggestion per catalog entry that is a
   * proper suffix of the normalised query, in catalog order; an empty
   * normalised query gives no suggestion.
   */
  lemma {:induction false} FindDomainHacksSpec(q: string, catalog: seq<string>, ns: string -> nat)
    ensures var s := Query.Normalize(q);
            var r := FindDomainHacks(q, catalog, ns);
            && (s == [] ==> r == [])
            && (s != [] ==> Tlds(r) == Candidates(s, catalog))
            && forall k | 0 <= k < |r| :: Describes(r[k], s, ns)
  {
    var s := Query.Normalize(q);
    if s != [] {
      PresentProbe(s, catalog, ns);
    }
  }

  /** The catalog's longest-first order carries over to the result. */
  lemma FindDomainHacksOrdered(q: string, catalog: seq<string>, ns: string -> nat)
    requires Catalog.WellOrdered(catalog)
    ensures Catalog.WellOrdered(Tlds(FindDomainHacks(q, catalog, ns)))
    ensures IsSubsequence(Tlds(FindDomainHacks(q, catalog, ns)), catalog)
  {
    var s := Query.Normalize(q);
    FindDomainHacksSpec(q, catalog, ns);
    if s != [] {
      Catalog.WellOrderedIsSorted(catalog);
      CandidatesSorted(s, catalog);
      CandidatesSubsequence(s, catalog);
    }
  }

  /** Every catalog entry that is a proper suffix of the normalised query has its suggestion. */
  lemma FindDomainHacksComplete(q: string, catalog: seq<string>, ns: string -> nat, tld: string)
    requires tld in catalog && IsCandidate(Query.Normalize(q), tld)
    ensures exists x | x in FindDomainHacks(q, catalog, ns) :: x.tld == tld
  {
    var s := Query.Normalize(q);
    FindDomainHacksSpec(q, catalog, ns);
    CandidatesCount(s, catalog, tld);
    var r := FindDomainHacks(q, catalog, ns);
    assert multiset(catalog)[tld] > 0;
    assert tld in multiset(Candidates(s, catalog));
    var k :| 0 <= k < |r| && Candidates(s, catalog)[k] == tld;
    assert r[k].tld == Tlds(r)[k];
  }

  /**
   * The domains the matcher sends to the resolver: one per candidate TLD,
   * none when the normalised query is empty.
   */
  function Lookups(q: string, catalog: seq<string>): (r: seq<string>)
    ensures |r| <= |catalog|
    ensures Query.Normalize(q) == [] ==> r == []
    ensures Query.Normalize(q) != [] ==>
              var c := Candidates(Query.Normalize(q), catalog);
              |r| == |c| && forall k | 0 <= k < |r| :: IsLookup(r[k], Query.Normalize(q), c[k])
  {
    var s := Query.Normalize(q);
    if s == [] then []
    else
      var c := Candidates(s, catalog);
      var r := seq(|c|, k requires 0 <= k < |c| => s[..|s| - |c[k]|] + "." + c[k]);
      r
  }

  /** `d` is the domain `left.tld` for a split of `s` into a non-empty `left` and `tld`. */
  predicate IsLookup(d: string, s: string, tld: string) {
    |tld| < |s| && s[|s| - |tld|..] == tld && d == s[..|s| - |tld|] + "." + tld
  }

  /** The resolver is asked about exactly the domains of the suggestions returned, in order. */
  lemma LookupsAreDomains(q: string, catalog: seq<string>, ns: string -> nat)
    ensures var r := FindDomainHacks(q, catalog, ns);
            |Lookups(q, catalog)| == |r| && forall k | 0 <= k < |r| :: Lookups(q, catalog)[k] == r[k].domain
  {
    var s := Query.Normalize(q);
    FindDomainHacksSpec(q, catalog, ns);
    var r := FindDomainHacks(q, catalog, ns);
    if s != [] {
      forall k | 0 <= k < |r| ensures r[k].left == s[..|s| - |r[k].tld|] {
        assert r[k].left + r[k].tld == s;
      }
    }
  }

  /** Two resolvers that agree on a suggestion's domain describe the same split alike. */
  lemma DescribesAgree(x: Suggestion, y: Suggestion, s: string, ns1: string -> nat, ns2: string -> nat)
    requires Describes(x, s, ns1) && Describes(y, s, ns2) && x.tld == y.tld
    requires ns1(x.domain) == ns2(x.domain)
    ensures x == y
  {
    assert x.left == s[..|s| - |x.tld|];
    assert y.left == s[..|s| - |y.tld|];
  }

  /**
   * The resolver is consulted only at `Lookups`: two resolvers that agree
   * there give the same result. With an empty normalised query there is no
   * lookup at all.
   */
  lemma FindDomainHacksOracleLocal(q: string, catalog: seq<string>, ns1: string -> nat, ns2: string -> nat)
    requires forall d | d in Lookups(q, catalog) :: ns1(d) == ns2(d)
    ensures FindDomainHacks(q, catalog, ns1) == FindDomainHacks(q, catalog, ns2)
  {
    var s := Query.Normalize(q);
    var r1 := FindDomainHacks(q, catalog, ns1);
    var r2 := FindDomainHacks(q, catalog, ns2);
    FindDomainHacksSpec(q, catalog, ns1);
    FindDomainHacksSpec(q, catalog, ns2);
    LookupsAreDomains(q, catalog, ns1);
    assert |r1| == |Tlds(r1)| == |Tlds(r2)| == |r2|;
    forall k | 0 <= k < |r1| ensures r1[k] == r2[k] {
      assert r1[k].tld == Tlds(r1)[k] && r2[k].tld == Tlds(r2)[k];
      assert r1[k].domain in Lookups(q, catalog);
      DescribesAgree(r1[k], r2[k], s, ns1, ns2);
    }
  }

  /** No lookup happens when the query is empty or all whitespace. */
  lemma BlankQueryNoLookups(q: string, catalog: seq<string>, ns: string -> nat)
    requires forall i | 0 <= i < |q| :: Text.IsSpace(q[i])
    ensures Lookups(q, catalog) == [] && FindDomainHacks(q, catalog, ns) == []
  {
    Query.NormalizeEmptyIff(q);
  }

  /** The normalised query "hello" with the TLD "lo" gives the domain "hel.lo". */
  lemma ExampleHelLo(ns: string -> nat)
    ensures FindByTld("hello", "lo", ns)
         == Some(Suggestion("hel.lo", "hel.lo", "lo", "hel", ns("hel.lo") == 0))
  {
    assert "hel" + "lo" == "hello" && "hel" + "." + "lo" == "hel.lo";
    FindByTldSplit("hel", "lo", ns);
  }
}
