/**
 Matching an origin against a pattern with a wildcard (util/domain.go:11-52). Bytes are
 modelled as characters.
 */
module Subdomain {
  import opened Wrappers
  import opened Splitting

  /** Where "://" first occurs. */
  function SchemeEnd(s: string): (r: Option<nat>)
    ensures r.Some? ==> r.value + 3 <= |s| && s[r.value..r.value + 3] == "://"
  {
    if |s| < 3 then None
    else if s[..3] == "://" then Some(0)
    else
      match SchemeEnd(s[1..])
      case None => None
      case Some(k) => assert s[k + 1..k + 4] == s[1..][k..k + 3]; Some(k + 1)
  }

  lemma {:induction false} SchemeEndIsFirst(s: string, k: nat)
    requires k + 3 <= |s| && s[k..k + 3] == "://"
    ensures SchemeEnd(s).Some? && SchemeEnd(s).value <= k
  {
    if s[..3] != "://" {
      assert s[1..][k - 1..k + 2] == s[k..k + 3];
      SchemeEndIsFirst(s[1..], k - 1);
    }
  }

  const STAR := "*"

  predicate NoStar(labels: seq<string>) {
    forall i :: 0 <= i < |labels| ==> labels[i] != STAR
  }

  /** `k` is the rightmost wildcard, and the labels right of it are a proper suffix of the domain's. */
  predicate WildcardAt(domain: seq<string>, pattern: seq<string>, k: nat)
    requires k < |pattern|
  {
    var right := pattern[k + 1..];
    pattern[k] == STAR && NoStar(right) && |right| < |domain| && domain[|domain| - |right|..] == right
  }

  /** Equal labels and no wildcard, or a wildcard standing for at least one label on the left. */
  predicate LabelsMatch(domain: seq<string>, pattern: seq<string>) {
    (domain == pattern && NoStar(pattern)) || exists k :: 0 <= k < |pattern| && WildcardAt(domain, pattern, k)
  }

  predicate Matches(domain: string, pattern: string) {
    var d, p := SchemeEnd(domain), SchemeEnd(pattern);
    && d.Some? && p.Some?
    && domain[..d.value] == pattern[..p.value]
    && |domain| - (d.value + 3) <= 253
    && LabelsMatch(Split(domain[d.value + 3..], '.'), Split(pattern[p.value + 3..], '.'))
  }

  predicate SchemeAt(s: string, k: int) {
    0 <= k <= |s| - 3 && s[k..k + 3] == "://"
  }

  predicate FirstSchemeAt(s: string, k: nat) {
    SchemeAt(s, k) && forall j :: 0 <= j < k ==> !SchemeAt(s, j)
  }

  lemma SchemeFound(s: string, k: nat)
    requires FirstSchemeAt(s, k)
    ensures SchemeEnd(s) == Some(k)
  {
    SchemeEndIsFirst(s, k);
    assert SchemeAt(s, SchemeEnd(s).value);
  }

  /** Without "://" nothing matches, and nothing is matched. */
  lemma SchemeNeeded(s: string, other: string)
    requires forall k :: !SchemeAt(s, k)
    ensures !Matches(s, other) && !Matches(other, s)
  {
    assert SchemeEnd(s).Some? ==> SchemeAt(s, SchemeEnd(s).value);
  }

  /** An origin with the labels `d` matches a pattern with the labels `p` if the schemes agree, the
      host is not too long, and the labels match. */
  lemma MatchesExactly(domain: string, d: seq<string>, j: nat, pattern: string, p: seq<string>, k: nat)
    requires FirstSchemeAt(domain, j) && domain[j + 3..] == Join(d, '.') && d != [] && AllFree(d, '.')
    requires FirstSchemeAt(pattern, k) && pattern[k + 3..] == Join(p, '.') && p != [] && AllFree(p, '.')
    ensures Matches(domain, pattern) <==>
            && domain[..j] == pattern[..k]
            && |domain| - j - 3 <= 253
            && LabelsMatch(d, p)
  {
    SchemeFound(domain, j);
    SchemeFound(pattern, k);
    SplitJoin(d, '.');
    SplitJoin(p, '.');
  }

  /** The labels are the same without a wildcard, or those right of the rightmost wildcard are the
      last ones of the origin, which has more. */
  lemma LabelsMatchExactly(d: seq<string>, p: seq<string>)
    ensures LabelsMatch(d, p) <==>
            || (d == p && "*" !in p)
            || exists n :: 0 <= n < |p| && p[n] == "*" && "*" !in p[n + 1..]
                           && |d| > |p| - n - 1 && d[|d| - (|p| - n - 1)..] == p[n + 1..]
  {
    forall n | 0 <= n < |p|
      ensures WildcardAt(d, p, n) <==>
              && p[n] == "*" && "*" !in p[n + 1..]
              && |d| > |p| - n - 1 && d[|d| - (|p| - n - 1)..] == p[n + 1..]
    {
    }
  }

  /** If the last `t` labels agree, are no wildcards, and the next one does not match, nothing does. */
  lemma StoppedAt(domain: seq<string>, pattern: seq<string>, t: nat)
    requires t <= |domain| && t <= |pattern|
    requires NoStar(pattern[|pattern| - t..])
    requires t < |domain|
    requires t < |pattern| ==>
               pattern[|pattern| - t - 1] != STAR && pattern[|pattern| - t - 1] != domain[|domain| - t - 1]
    ensures !LabelsMatch(domain, pattern)
  {
    forall k | 0 <= k < |pattern| ensures !WildcardAt(domain, pattern, k) {
      var right := pattern[k + 1..];
      if k >= |pattern| - t {
        assert pattern[k] == pattern[|pattern| - t..][k - (|pattern| - t)];
      } else if k < |pattern| - t - 1 && |right| < |domain| {
        assert domain[|domain| - |right|..][|right| - t - 1] == domain[|domain| - t - 1];
        assert right[|right| - t - 1] == pattern[|pattern| - t - 1];
      }
    }
  }

  /** The labels from `i` and from `j` on are the same, and no wildcards. */
  predicate AgreeFrom(domain: seq<string>, i: nat, pattern: seq<string>, j: nat)
    requires i <= |domain| && j <= |pattern|
  {
    |domain| - i == |pattern| - j && domain[i..] == pattern[j..] && NoStar(pattern[j..])
  }

  lemma AgreeMore(domain: seq<string>, i: nat, pattern: seq<string>, j: nat)
    requires i < |domain| && j < |pattern| && AgreeFrom(domain, i + 1, pattern, j + 1)
    requires domain[i] == pattern[j] != STAR
    ensures AgreeFrom(domain, i, pattern, j)
  {
    assert domain[i..] == [domain[i]] + domain[i + 1..];
    assert pattern[j..] == [pattern[j]] + pattern[j + 1..];
  }

  lemma AgreedUpTo(domain: seq<string>, i: nat, pattern: seq<string>, j: nat)
    requires i < |domain| && j < |pattern| && AgreeFrom(domain, i + 1, pattern, j + 1) && pattern[j] == STAR
    ensures LabelsMatch(domain, pattern)
  {
    assert WildcardAt(domain, pattern, j);
  }

  lemma Stopped(domain: seq<string>, i: nat, pattern: seq<string>, j: nat)
    requires 0 < i <= |domain| && j <= |pattern| && AgreeFrom(domain, i, pattern, j)
    requires j > 0 ==> pattern[j - 1] != STAR && pattern[j - 1] != domain[i - 1]
    ensures !LabelsMatch(domain, pattern)
  {
    StoppedAt(domain, pattern, |domain| - i);
  }

  method DoesSubdomainMatch(domain0: string, pattern0: string) returns (r: bool)
    ensures r == Matches(domain0, pattern0)
  {
    var d, p := SchemeEnd(domain0), SchemeEnd(pattern0);
    if d.None? || p.None? {
      return false;
    }
    if domain0[..d.value] != pattern0[..p.value] {
      return false;
    }
    var domain := domain0[d.value + 3..];
    if |domain| > 253 {
      return false;
    }
    var pattern := pattern0[p.value + 3..];
    var domainParts, patternParts := Split(domain, '.'), Split(pattern, '.');
    var patternIdx, domainIdx := |patternParts|, |domainParts|;
    while domainIdx > 0
      invariant 0 <= domainIdx <= |domainParts| && 0 <= patternIdx <= |patternParts|
      invariant AgreeFrom(domainParts, domainIdx, patternParts, patternIdx)
    {
      if patternIdx == 0 {
        Stopped(domainParts, domainIdx, patternParts, patternIdx);
        return false;
      }
      domainIdx := domainIdx - 1;
      patternIdx := patternIdx - 1;
      var part := patternParts[patternIdx];
      if part == STAR {
        AgreedUpTo(domainParts, domainIdx, patternParts, patternIdx);
        return true;
      }
      if part != domainParts[domainIdx] {
        Stopped(domainParts, domainIdx + 1, patternParts, patternIdx + 1);
        return false;
      }
      AgreeMore(domainParts, domainIdx, patternParts, patternIdx);
    }
    assert domainParts[0..] == domainParts;
    NothingLeft(domainParts, patternParts, patternIdx);
    return patternIdx == 0;
  }

  /** All of the domain's labels are used up: a wildcard further left would stand for no label. */
  lemma NothingLeft(domain: seq<string>, pattern: seq<string>, i: nat)
    requires i <= |pattern| && domain == pattern[i..] && NoStar(domain)
    ensures LabelsMatch(domain, pattern) <==> i == 0
  {
    forall k | 0 <= k < |pattern| ensures !WildcardAt(domain, pattern, k) {
      if k >= i {
        assert pattern[k] == domain[k - i];
      }
    }
    if i == 0 {
      assert pattern[0..] == pattern;
    }
  }
}
