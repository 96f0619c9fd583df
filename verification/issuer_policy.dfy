/**
 * The issuer and algorithm gate: the mandatory JWS algorithm (section 3.3 of
 * RFC 7518) and the allow-list of issuer substrings an `iss` claim
 * (section 4.1.1 of RFC 7519) must contain, compared case-sensitively.
 */
module IssuerPolicy {
  import opened PyJson

  const RequiredAlg: string := "RS256"
  const ApiIssuer: string := "api.github.com"
  const WebIssuer: string := "github.com"
  const ActionsIssuer: string := "actions.githubusercontent.com"
  const GithubIssuers: seq<string> := [ApiIssuer, WebIssuer, ActionsIssuer]

  /** `any(github_issuer in iss for github_issuer in issuers)`. */
  predicate AnyContained(issuers: seq<string>, iss: string)
    decreases |issuers|
  {
    |issuers| > 0 && (Contains(issuers[0], iss) || AnyContained(issuers[1..], iss))
  }

  /**
   * The trusted-issuer test of the verification flow, on the text of `iss`.
   * The allow-list's first entry is redundant: every string containing
   * `api.github.com` contains `github.com`, so an issuer is trusted exactly
   * when it mentions `github.com` or `actions.githubusercontent.com`.
   */
  predicate IsTrustedIssuer(iss: string)
    ensures IsTrustedIssuer(iss) <==> Contains(WebIssuer, iss) || Contains(ActionsIssuer, iss)
  {
    AnyContainedIff(GithubIssuers, iss);
    assert GithubIssuers[0] == ApiIssuer && GithubIssuers[1] == WebIssuer && GithubIssuers[2] == ActionsIssuer;
    assert Contains(ApiIssuer, iss) ==> Contains(WebIssuer, iss) by {
      if Contains(ApiIssuer, iss) {
        ApiMentionsWeb();
        ContainsTransitive(WebIssuer, ApiIssuer, iss);
      }
    }
    AnyContained(GithubIssuers, iss)
  }

  lemma {:induction false} AnyContainedIff(issuers: seq<string>, iss: string)
    ensures AnyContained(issuers, iss) <==> exists i :: 0 <= i < |issuers| && Contains(issuers[i], iss)
    decreases |issuers|
  {
    if |issuers| > 0 {
      AnyContainedIff(issuers[1..], iss);
      if AnyContained(issuers[1..], iss) {
        var i :| 0 <= i < |issuers[1..]| && Contains(issuers[1..][i], iss);
        assert issuers[i + 1] == issuers[1..][i];
      }
      if !Contains(issuers[0], iss) && exists i :: 0 <= i < |issuers| && Contains(issuers[i], iss) {
        var i :| 0 <= i < |issuers| && Contains(issuers[i], iss);
        assert i > 0 && issuers[1..][i - 1] == issuers[i];
      }
    }
  }

  lemma ApiMentionsWeb()
    ensures Contains(WebIssuer, ApiIssuer)
  {
    assert ApiIssuer[4..] == WebIssuer;
    ContainsShift(WebIssuer, ApiIssuer, 4);
  }

  /**
   * The test is a substring test and not a host comparison: an issuer URL on
   * a host that merely ends in `github.com` is trusted.
   */
  lemma LookalikeIssuerTrusted()
    ensures IsTrustedIssuer("https://evilgithub.com")
  {
    var s := "https://evilgithub.com";
    assert s[12..] == WebIssuer;
    assert Contains(WebIssuer, s[12..]);
    ContainsShift(WebIssuer, s, 12);
  }

  /** An issuer that mentions none of the three names is never trusted. */
  lemma UnrelatedIssuerRejected()
    ensures !IsTrustedIssuer("https://accounts.google.com")
  {
    NoLetterBRejected("https://accounts.google.com");
  }

  /** Every name on the allow-list contains a 'b': an issuer without one is never trusted. */
  lemma NoLetterBRejected(s: string)
    requires 'b' !in s
    ensures !IsTrustedIssuer(s)
  {
    NoGithubIn(s);
  }

  /** Both remaining names contain a 'b', so a string without one matches neither. */
  lemma {:induction false} NoGithubIn(s: string)
    requires 'b' !in s
    ensures !Contains(WebIssuer, s) && !Contains(ActionsIssuer, s)
    decreases |s|
  {
    assert WebIssuer[5] == 'b' && ActionsIssuer[13] == 'b';
    if |s| > 0 {
      assert s == [s[0]] + s[1..];
      NoGithubIn(s[1..]);
    }
  }
}
