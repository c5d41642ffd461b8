/**
  The key normalisation of the search cache: how a query and a domain are
  turned into the text that is hashed, and how a URL or a bare domain is
  reduced to the domain the cache aggregates by. SHA-256 is a parameter
  (`sha256` maps text to its hex digest) and `netloc` stands for the network
  location `urlparse` extracts; both are left uninterpreted.
 */
module SearchCache {
  import opened Wrappers
  import opened Text
  import opened Sequences

  /** Hex characters kept from the digest: 64 bits for a query, 32 bits for a domain. */
  const QUERY_HASH_LENGTH: nat := 16
  const DOMAIN_HASH_LENGTH: nat := 8

  /** What `_hash_query` and `_hash_domain` do to text before hashing it: `lower().strip()`. */
  function Normalize(s: string): (r: string)
    ensures IsLower(r)
    ensures r == [] || (!IsSpace(r[0]) && !IsSpace(r[|r| - 1]))
    ensures |r| <= |s|
    ensures r == Lower(Strip(s))
    ensures r == s <==> IsLower(s) && (s == [] || (!IsSpace(s[0]) && !IsSpace(s[|s| - 1])))
  {
    NormalFormFacts(s);
    Strip(Lower(s))
  }

  lemma NormalFormFacts(s: string)
    ensures IsLower(Strip(Lower(s)))
    ensures |Strip(Lower(s))| <= |s|
    ensures Strip(Lower(s)) == Lower(Strip(s))
    ensures IsLower(s) && (s == [] || (!IsSpace(s[0]) && !IsSpace(s[|s| - 1]))) ==> Strip(Lower(s)) == s
  {
    CleanTextUnchanged(s);
    LowerStripCommute(s);
    LowerIsLower(Strip(s));
    assert |Strip(s)| <= |s|;
  }

  /** The text `_hash_query` digests: the three fields joined by `|`; a missing domain is written as `''`. */
  function QueryKey(normalized: string, searchType: string, domain: Option<string>): string {
    normalized + "|" + searchType + "|" + domain.GetOr("")
  }

  /** `_hash_query`: the first 16 hex characters of the digest of the normalised key. */
  function HashQuery(query: string, searchType: string, domain: Option<string>, sha256: string -> string): (r: string)
    ensures var d := sha256(QueryKey(Normalize(query), searchType, domain));
            && |r| == (if |d| < QUERY_HASH_LENGTH then |d| else QUERY_HASH_LENGTH)
            && r == d[..|r|]
  {
    SliceTo(sha256(QueryKey(Normalize(query), searchType, domain)), QUERY_HASH_LENGTH)
  }

  /** `_hash_domain`: the first 8 hex characters of the digest of the normalised domain. */
  function HashDomain(domain: string, sha256: string -> string): (r: string)
    ensures var d := sha256(Normalize(domain));
            && |r| == (if |d| < DOMAIN_HASH_LENGTH then |d| else DOMAIN_HASH_LENGTH)
            && r == d[..|r|]
  {
    SliceTo(sha256(Normalize(domain)), DOMAIN_HASH_LENGTH)
  }

  /** Normalising is idempotent, so case and surrounding whitespace never reach the digest. */
  lemma {:induction false} NormalizeIgnoresCaseAndPadding(s: string)
    ensures Normalize(Lower(s)) == Normalize(s)
    ensures Normalize(Strip(s)) == Normalize(s)
    ensures Normalize(Normalize(s)) == Normalize(s)
  {
    LowerIdempotent(s);
    LowerStripCommute(s);
    LowerStripCommute(Strip(s));
    StripIdempotent(s);
    LowerStripCommute(Lower(s));
    LowerIdempotent(Strip(s));
  }

  /**
    Queries that differ only in letter case or surrounding whitespace share a key,
    and a missing domain is keyed like the empty domain.
   */
  lemma HashQuerySameKey(query: string, searchType: string, domain: Option<string>, sha256: string -> string)
    ensures HashQuery(Lower(query), searchType, domain, sha256) == HashQuery(query, searchType, domain, sha256)
    ensures HashQuery(Strip(query), searchType, domain, sha256) == HashQuery(query, searchType, domain, sha256)
    ensures HashQuery(query, searchType, None, sha256) == HashQuery(query, searchType, Some(""), sha256)
  {
    HashQueryIgnoresCase(query, searchType, domain, sha256);
    HashQueryIgnoresPadding(query, searchType, domain, sha256);
    HashQueryNoDomain(query, searchType, sha256);
  }

  lemma HashQueryIgnoresCase(query: string, searchType: string, domain: Option<string>, sha256: string -> string)
    ensures HashQuery(Lower(query), searchType, domain, sha256) == HashQuery(query, searchType, domain, sha256)
  {
    NormalizeIgnoresCaseAndPadding(query);
    HashQueryByNormalized(Lower(query), query, searchType, domain, sha256);
  }

  lemma HashQueryIgnoresPadding(query: string, searchType: string, domain: Option<string>, sha256: string -> string)
    ensures HashQuery(Strip(query), searchType, domain, sha256) == HashQuery(query, searchType, domain, sha256)
  {
    NormalizeIgnoresCaseAndPadding(query);
    HashQueryByNormalized(Strip(query), query, searchType, domain, sha256);
  }

  lemma HashQueryNoDomain(query: string, searchType: string, sha256: string -> string)
    ensures HashQuery(query, searchType, None, sha256) == HashQuery(query, searchType, Some(""), sha256)
  {
    assert QueryKey(Normalize(query), searchType, None) == QueryKey(Normalize(query), searchType, Some(""));
  }

  /** The query hash depends on the query only through its normalised text. */
  lemma HashQueryByNormalized(q1: string, q2: string, searchType: string, domain: Option<string>, sha256: string -> string)
    requires Normalize(q1) == Normalize(q2)
    ensures HashQuery(q1, searchType, domain, sha256) == HashQuery(q2, searchType, domain, sha256)
  {
  }

  /** Domains that differ only in letter case or surrounding whitespace share a hash. */
  lemma HashDomainSameKey(domain: string, sha256: string -> string)
    ensures HashDomain(Lower(domain), sha256) == HashDomain(domain, sha256)
    ensures HashDomain(Strip(domain), sha256) == HashDomain(domain, sha256)
  {
    NormalizeIgnoresCaseAndPadding(domain);
  }

  /** Where the text after the last `sep` starts (0 when there is none). */
  function LastFieldStart(s: string, sep: char): (n: nat)
    ensures n <= |s|
  {
    if |s| == 0 then 0
    else if s[|s| - 1] == sep then |s|
    else LastFieldStart(s[..|s| - 1], sep)
  }

  lemma {:induction false} LastFieldStartOf(a: string, sep: char, b: string)
    requires forall i :: 0 <= i < |b| ==> b[i] != sep
    ensures LastFieldStart(a + [sep] + b, sep) == |a| + 1
    decreases |b|
  {
    var s := a + [sep] + b;
    if |b| == 0 {
      assert s[|s| - 1] == sep;
    } else {
      assert s[|s| - 1] == b[|b| - 1];
      assert s[..|s| - 1] == a + [sep] + b[..|b| - 1];
      LastFieldStartOf(a, sep, b[..|b| - 1]);
    }
  }

  /** Splitting at the last separator recovers both parts when the last part holds none. */
  lemma SplitAtLast(a1: string, b1: string, a2: string, b2: string, sep: char)
    requires forall i :: 0 <= i < |b1| ==> b1[i] != sep
    requires forall i :: 0 <= i < |b2| ==> b2[i] != sep
    requires a1 + [sep] + b1 == a2 + [sep] + b2
    ensures a1 == a2 && b1 == b2
  {
    var s := a1 + [sep] + b1;
    LastFieldStartOf(a1, sep, b1);
    LastFieldStartOf(a2, sep, b2);
    assert a1 == s[..|a1|] && a2 == s[..|a2|];
    assert b1 == s[|a1| + 1..] && b2 == s[|a2| + 1..];
  }

  /**
    The key keeps its three fields apart: when neither the search type nor the
    domain contains `|`, distinct (query, type, domain) triples give distinct keys,
    even if the normalised query itself contains `|`.
   */
  lemma QueryKeyInjective(n1: string, t1: string, d1: string, n2: string, t2: string, d2: string)
    requires forall i :: 0 <= i < |t1| ==> t1[i] != '|'
    requires forall i :: 0 <= i < |t2| ==> t2[i] != '|'
    requires forall i :: 0 <= i < |d1| ==> d1[i] != '|'
    requires forall i :: 0 <= i < |d2| ==> d2[i] != '|'
    requires QueryKey(n1, t1, Some(d1)) == QueryKey(n2, t2, Some(d2))
    ensures n1 == n2 && t1 == t2 && d1 == d2
  {
    SplitAtLast(n1 + "|" + t1, d1, n2 + "|" + t2, d2, '|');
    SplitAtLast(n1, t1, n2, t2, '|');
  }

  /** `domain.startswith('www.')` followed by `domain[4:]`: one case-sensitive prefix removed. */
  function DropWww(domain: string): (r: string)
    ensures StartsWith(domain, "www.") ==> domain == "www." + r
    ensures !StartsWith(domain, "www.") ==> r == domain
  {
    if StartsWith(domain, "www.") then domain[4..] else domain
  }

  /**
    `_normalize_domain`: the network location of a URL (text containing `://`) or
    the text itself, less one leading `www.`, lower-cased and stripped.
   */
  function NormalizeDomain(urlOrDomain: string, netloc: string -> string): (r: string)
    ensures IsLower(r)
    ensures r == [] || (!IsSpace(r[0]) && !IsSpace(r[|r| - 1]))
  {
    var domain := if Contains(urlOrDomain, "://") then netloc(urlOrDomain) else urlOrDomain;
    Normalize(DropWww(domain))
  }

  /** No `://` can start inside a `www.` prefix, so the prefix does not make a bare domain a URL. */
  lemma WwwPrefixNoScheme(x: string)
    requires !Contains(x, "://")
    ensures !Contains("www." + x, "://")
  {
    var s := "www." + x;
    ContainsIff(x, "://");
    forall k: int
      ensures !OccursAt(s, "://", k)
    {
      if 0 <= k < 4 && k + 3 <= |s| {
        assert s[k..k + 3][0] == s[k];
      } else if 4 <= k && k + 3 <= |s| {
        assert s[k..k + 3] == x[k - 4..k - 4 + 3];
        assert !OccursAt(x, "://", k - 4);
      }
    }
    ContainsIff(s, "://");
  }

  /**
    A bare domain loses exactly one leading `www.`: whatever follows it, including
    a second `www.`, is kept and only lower-cased and stripped.
   */
  lemma NormalizeDomainDropsOneWww(x: string, netloc: string -> string)
    requires !Contains(x, "://")
    ensures NormalizeDomain("www." + x, netloc) == Normalize(x)
  {
    WwwPrefixNoScheme(x);
    assert ("www." + x)[..4] == "www.";
    assert ("www." + x)[4..] == x;
  }

  /** A bare domain that does not start with the lower-case `www.` keeps all its text. */
  lemma NormalizeDomainKeepsOtherPrefixes(x: string, netloc: string -> string)
    requires !Contains(x, "://") && !StartsWith(x, "www.")
    ensures NormalizeDomain(x, netloc) == Normalize(x)
  {
  }

  /** A URL is normalised exactly as its network location would be on its own. */
  lemma NormalizeDomainOfUrl(url: string, netloc: string -> string)
    requires Contains(url, "://") && !Contains(netloc(url), "://")
    ensures NormalizeDomain(url, netloc) == NormalizeDomain(netloc(url), netloc)
  {
  }

  /** Lower-case text with no surrounding whitespace is its own normal form. */
  lemma CleanTextUnchanged(s: string)
    ensures IsLower(s) && (s == [] || (!IsSpace(s[0]) && !IsSpace(s[|s| - 1]))) ==> Strip(Lower(s)) == s
  {
    if IsLower(s) && (s == [] || (!IsSpace(s[0]) && !IsSpace(s[|s| - 1]))) {
      assert Lower(s) == s;
      assert LStrip(s) == s;
      assert RStrip(s) == s;
    }
  }

  /** "www.www.a" keeps its second `www.`, so normalising twice differs from normalising once. */
  lemma DoubleWwwExample(s: string, netloc: string -> string)
    requires s == "www.www.a"
    ensures NormalizeDomain(s, netloc) == "www.a"
    ensures NormalizeDomain(NormalizeDomain(s, netloc), netloc) == "a"
  {
    DoubleWwwOnce(s, netloc);
    SingleWwwExample(NormalizeDomain(s, netloc), netloc);
  }

  lemma DoubleWwwOnce(s: string, netloc: string -> string)
    requires s == "www.www.a"
    ensures NormalizeDomain(s, netloc) == "www.a"
  {
    DoubleWwwParts(s);
    OneWwwOf(s[4..], netloc);
  }

  lemma DoubleWwwParts(s: string)
    requires s == "www.www.a"
    ensures s[4..] == "www.a" && s == "www." + s[4..]
    ensures !Contains(s[4..], "://")
    ensures IsLower(s[4..]) && !IsSpace(s[4]) && !IsSpace(s[|s| - 1])
  {
    AbsentByTriple(s[4..], "://");
  }

  lemma SingleWwwExample(t: string, netloc: string -> string)
    requires t == "www.a"
    ensures NormalizeDomain(t, netloc) == "a"
  {
    SingleWwwParts(t);
    OneWwwOf(t[4..], netloc);
  }

  lemma SingleWwwParts(t: string)
    requires t == "www.a"
    ensures t[4..] == "a" && t == "www." + t[4..]
    ensures !Contains(t[4..], "://") && IsLower(t[4..]) && !IsSpace(t[4])
  {
    AbsentByChar(t[4..], "://", 0);
  }

  /** A bare, already normalised domain behind one `www.` comes out as itself. */
  lemma OneWwwOf(a: string, netloc: string -> string)
    requires !Contains(a, "://") && IsLower(a) && (a == [] || (!IsSpace(a[0]) && !IsSpace(a[|a| - 1])))
    ensures NormalizeDomain("www." + a, netloc) == a
  {
    NormalizeDomainDropsOneWww(a, netloc);
  }

  /** The `www.` test is case-sensitive: "WWW.a" only has its letters lower-cased. */
  lemma UpperWwwExample(s: string, netloc: string -> string)
    requires s == "WWW.a"
    ensures NormalizeDomain(s, netloc) == "www.a"
  {
    UpperWwwParts(s);
    NormalizeDomainKeepsOtherPrefixes(s, netloc);
    assert Strip(s) == s by {
      assert LStrip(s) == s;
      assert RStrip(s) == s;
    }
  }

  lemma UpperWwwParts(s: string)
    requires s == "WWW.a"
    ensures !Contains(s, "://") && !StartsWith(s, "www.")
    ensures Lower(s) == "www.a"
  {
    AbsentByTriple(s, "://");
    assert s[..4] != "www.";
  }
}
