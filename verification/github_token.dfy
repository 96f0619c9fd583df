/**
 * The verification and identity flow: `decode_jwt`, `verify_github_jwt`,
 * `get_org_name_from_jwt` and `get_org_name_and_verify_from_token`.
 *
 * Everything outside the module's own logic is part of the environment
 * `Env`: the two key endpoints' responses, PyJWT's decoding with and
 * without a signature check, `PyJWK.from_dict`, `json.loads`, Python's
 * `str()` of a non-string value, and the REST API's answer for each
 * organization id. Python's `None` is `JNull` throughout.
 */
module GithubToken {
  import opened Wrappers
  import opened PyJson
  import opened Base64
  import opened NodeId
  import opened IssuerPolicy
  import opened KeySource

  /** One option set of `jwt.decode`; the signature is always checked. */
  datatype Policy = Policy(verifyAud: bool, verifyExp: bool)

  /** The four option sets, in the order they are tried. */
  const Policies: seq<Policy> := [
    Policy(false, false),  // neither audience nor expiry
    Policy(false, true),   // no audience check
    Policy(true, false),   // no expiry check
    Policy(true, true)     // full check
  ]

  /** What one `jwt.decode(token, key, algorithms=['RS256'], options)` call does. */
  datatype Attempt = Pass | InvalidToken | OtherError

  datatype Env = Env(
    jwks: HttpResponse,
    meta: HttpResponse,
    canConvert: Json -> bool,
    parseJson: seq<Byte> -> Option<Json>,
    unverifiedClaims: string -> Option<map<string, Json>>,
    attempt: (string, PublicKey, Policy) -> Attempt,
    strOf: Json -> string,
    orgApi: nat -> HttpResponse)

  // ---------------------------------------------------------------------
  // Decoding

  /** `token.split('.')[0]`. */
  function HeaderSegment(token: string): (seg: string)
    ensures '.' !in seg && seg <= token
    ensures |seg| < |token| ==> token[|seg|] == '.'
  {
    if |token| == 0 || token[0] == '.' then []
    else [token[0]] + HeaderSegment(token[1..])
  }

  /** The header as `json.loads` gives it, None when decoding or parsing fails. */
  function DecodeHeader(env: Env, token: string): (r: Option<Json>)
    ensures DecodeHeaderSegment(HeaderSegment(token)).None? ==> r.None?
  {
    match DecodeHeaderSegment(HeaderSegment(token))
    case None => None
    case Some(bytes) => env.parseJson(bytes)
  }

  /** The first segment of `seg + "." + rest` is `seg` when `seg` holds no dot. */
  lemma {:induction false} HeaderSegmentOf(seg: string, rest: string)
    requires '.' !in seg
    ensures HeaderSegment(seg + "." + rest) == seg
    decreases |seg|
  {
    if |seg| > 0 {
      assert (seg + "." + rest)[1..] == seg[1..] + "." + rest;
      HeaderSegmentOf(seg[1..], rest);
      assert [seg[0]] + seg[1..] == seg;
    }
  }

  /**
   * A token whose first segment is the unpadded base64url encoding of some
   * bytes has exactly those bytes, parsed, as its header: the header path
   * inverts what a JWS encoder writes, whatever follows the first dot.
   */
  lemma DecodeHeaderOfEncodedToken(env: Env, bs: seq<Byte>, rest: string)
    ensures DecodeHeader(env, StdToUrl(Encode(bs)) + "." + rest) == env.parseJson(bs)
  {
    var seg := StdToUrl(Encode(bs));
    assert '.' !in seg by {
      forall i | 0 <= i < |seg| ensures seg[i] != '.' {
        assert IsAlphabetChar(Encode(bs)[i]);
      }
    }
    HeaderSegmentOf(seg, rest);
    HeaderSegmentRoundTrip(bs);
  }

  /** `str(v)`: a string is itself; anything else is the environment's rendering. */
  function PyStr(env: Env, v: Json): (s: string)
    ensures v.JStr? ==> s == v.s
  {
    if v.JStr? then v.s else env.strOf(v)
  }

  /**
   * `decode_jwt(token, verify_signature)`: the `owner_id` claim, or None.
   * With signature checking, an owner id is reported exactly for a token
   * whose header names a key of the meta tier (`default` when it names
   * none) and whose signature passes the first option set with that key.
   */
  function DecodeJwt(env: Env, token: string, verifySignature: bool): (r: Json)
    ensures verifySignature && r != JNull ==>
      DecodeHeader(env, token).Some? && DecodeHeader(env, token).value.JObj?
    ensures verifySignature && r != JNull ==>
      var header := DecodeHeader(env, token).value.fields;
      var kid := if "kid" in header then header["kid"] else DefaultKid;
      && MetaKeys(env.meta).Some? && Hashable(kid) && kid in MetaKeys(env.meta).value
      && env.attempt(token, MetaKeys(env.meta).value[kid], Policies[0]) == Pass
      && env.unverifiedClaims(token).Some?
      && r == Get(env.unverifiedClaims(token).value, "owner_id")
    ensures (verifySignature && DecodeHeader(env, token).Some? && DecodeHeader(env, token).value.JObj?
             && MetaKeys(env.meta).Some? && env.unverifiedClaims(token).Some?) ==>
      var header := DecodeHeader(env, token).value.fields;
      var kid := if "kid" in header then header["kid"] else DefaultKid;
      (Hashable(kid) && kid in MetaKeys(env.meta).value
       && env.attempt(token, MetaKeys(env.meta).value[kid], Policies[0]) == Pass) ==>
      r == Get(env.unverifiedClaims(token).value, "owner_id")
  {
    if !verifySignature then
      match env.unverifiedClaims(token)
      case None => JNull
      case Some(claims) => Get(claims, "owner_id")
    else
      match DecodeHeader(env, token)
      case None => JNull
      case Some(header) =>
        if !header.JObj? then JNull
        else
          var kid := if "kid" in header.fields then header.fields["kid"] else DefaultKid;
          match PublicKeys(JNull, env.jwks, env.meta, env.canConvert)
          case None => JNull
          case Some(keys) =>
            if !Hashable(kid) || kid !in keys then JNull
            else if env.attempt(token, keys[kid], Policies[0]) != Pass then JNull
            // the payload a successful jwt.decode returns is the token's own payload
            else match env.unverifiedClaims(token)
              case None => JNull
              case Some(claims) => Get(claims, "owner_id")
  }

  // ---------------------------------------------------------------------
  // Verification

  datatype Rejection =
    | MalformedToken
    | UnsupportedAlgorithm
    | UntrustedIssuer
    | MissingKeyId
    | KeyNotFound
    | UnexpectedError

  /** The outcome of the checks that come before any signature attempt. */
  datatype Gate = Reject(reason: Rejection) | Proceed(key: PublicKey)

  /**
   * The rejections of `verify_github_jwt`, in the order the source makes
   * them. A token reaches the signature attempts only with claims, a dict
   * header asking for RS256, a truthy trusted issuer and a truthy hashable
   * kid, and then with the key its issuer's key map files under that kid.
   */
  function PreSignature(env: Env, token: string): (g: Gate)
    ensures g.Proceed? ==> env.unverifiedClaims(token).Some?
    ensures g.Proceed? ==> DecodeHeader(env, token).Some? && DecodeHeader(env, token).value.JObj?
    ensures g.Proceed? ==>
      var header := DecodeHeader(env, token).value.fields;
      var iss := Get(env.unverifiedClaims(token).value, "iss");
      var kid := Get(header, "kid");
      && Get(header, "alg") == JStr(RequiredAlg)
      && Truthy(iss) && IsTrustedIssuer(PyStr(env, iss))
      && Truthy(kid) && Hashable(kid)
      && PublicKeys(iss, env.jwks, env.meta, env.canConvert).Some?
      && kid in PublicKeys(iss, env.jwks, env.meta, env.canConvert).value
      && g.key == PublicKeys(iss, env.jwks, env.meta, env.canConvert).value[kid]
  {
    match env.unverifiedClaims(token)
    case None => Reject(MalformedToken)
    case Some(claims) =>
      match DecodeHeader(env, token)
      case None => Reject(MalformedToken)
      case Some(header) =>
        if !header.JObj? then Reject(MalformedToken)
        else if Get(header.fields, "alg") != JStr(RequiredAlg) then Reject(UnsupportedAlgorithm)
        else
          var iss := Get(claims, "iss");
          if !Truthy(iss) || !IsTrustedIssuer(PyStr(env, iss)) then Reject(UntrustedIssuer)
          else
            var kid := Get(header.fields, "kid");
            if !Truthy(kid) then Reject(MissingKeyId)
            else match PublicKeys(iss, env.jwks, env.meta, env.canConvert)
              case None => Reject(UnexpectedError)
              case Some(keys) =>
                if |keys| == 0 then Reject(KeyNotFound)
                else if !Hashable(kid) then Reject(UnexpectedError)
                else if kid !in keys then Reject(KeyNotFound)
                else Proceed(keys[kid])
  }

  /** The results of the four signature attempts with one key. */
  function Attempts(env: Env, token: string, key: PublicKey): (rs: seq<Attempt>)
    ensures |rs| == |Policies|
    ensures forall i :: 0 <= i < |Policies| ==> rs[i] == env.attempt(token, key, Policies[i])
  {
    seq(|Policies|, i requires 0 <= i < |Policies| => env.attempt(token, key, Policies[i]))
  }

  /**
   * The loop over option sets: the first Pass accepts, an InvalidToken
   * moves on, any other exception rejects, and running out rejects.
   */
  function FirstPass(rs: seq<Attempt>): bool
    decreases |rs|
  {
    |rs| > 0 &&
    match rs[0]
    case Pass => true
    case InvalidToken => FirstPass(rs[1..])
    case OtherError => false
  }

  /** Accepting means: some attempt passes and every one before it was an InvalidToken. */
  lemma {:induction false} FirstPassIff(rs: seq<Attempt>)
    ensures FirstPass(rs) <==>
      exists i :: 0 <= i < |rs| && rs[i] == Pass && forall j :: 0 <= j < i ==> rs[j] == InvalidToken
    decreases |rs|
  {
    if |rs| > 0 {
      FirstPassIff(rs[1..]);
      if rs[0] == InvalidToken && FirstPass(rs[1..]) {
        var i :| 0 <= i < |rs[1..]| && rs[1..][i] == Pass && forall j :: 0 <= j < i ==> rs[1..][j] == InvalidToken;
        assert rs[i + 1] == Pass;
        assert forall j :: 0 <= j < i + 1 ==> rs[j] == InvalidToken by {
          forall j | 0 <= j < i + 1 ensures rs[j] == InvalidToken {
            if j > 0 { assert rs[j] == rs[1..][j - 1]; }
          }
        }
      }
      if exists i :: 0 <= i < |rs| && rs[i] == Pass && forall j :: 0 <= j < i ==> rs[j] == InvalidToken {
        var i :| 0 <= i < |rs| && rs[i] == Pass && forall j :: 0 <= j < i ==> rs[j] == InvalidToken;
        if i > 0 {
          assert rs[0] == InvalidToken;
          assert rs[1..][i - 1] == Pass;
          assert forall j :: 0 <= j < i - 1 ==> rs[1..][j] == InvalidToken by {
            forall j | 0 <= j < i - 1 ensures rs[1..][j] == InvalidToken {
              assert rs[1..][j] == rs[j + 1];
            }
          }
        }
      }
    }
  }

  /**
   * `verify_github_jwt(token)` as a specification: every check before the
   * signature passes, and some option set passes after only InvalidTokens.
   */
  predicate Verified(env: Env, token: string)
    ensures Verified(env, token) <==> (
      && PreSignature(env, token).Proceed?
      && var rs := Attempts(env, token, PreSignature(env, token).key);
         exists i :: 0 <= i < |rs| && rs[i] == Pass && forall j :: 0 <= j < i ==> rs[j] == InvalidToken)
  {
    var g := PreSignature(env, token);
    assert g.Proceed? ==> var rs := Attempts(env, token, g.key);
      FirstPass(rs) == exists i :: 0 <= i < |rs| && rs[i] == Pass && forall j :: 0 <= j < i ==> rs[j] == InvalidToken
    by {
      if g.Proceed? { FirstPassIff(Attempts(env, token, g.key)); }
    }
    match g
    case Reject(_) => false
    case Proceed(key) => FirstPass(Attempts(env, token, key))
  }

  /** `verify_github_jwt`: the fixed rejections, then the four attempts in order. */
  method VerifyGithubJwt(env: Env, token: string) returns (ok: bool)
    ensures ok == Verified(env, token)
  {
    ghost var gate := PreSignature(env, token);
    var claims := env.unverifiedClaims(token);
    if claims.None? {
      return false;
    }
    var header := DecodeHeader(env, token);
    if header.None? || !header.value.JObj? {
      return false;
    }
    var fields := header.value.fields;
    if Get(fields, "alg") != JStr(RequiredAlg) {
      return false;
    }
    var iss := Get(claims.value, "iss");
    if !Truthy(iss) || !IsTrustedIssuer(PyStr(env, iss)) {
      return false;
    }
    var kid := Get(fields, "kid");
    if !Truthy(kid) {
      return false;
    }
    var keys := GetGithubPublicKeys(iss, env.jwks, env.meta, env.canConvert);
    if keys.None? || |keys.value| == 0 || !Hashable(kid) || kid !in keys.value {
      return false;
    }
    var key := keys.value[kid];
    assert gate == Proceed(key);
    ghost var rs := Attempts(env, token, key);
    var i := 0;
    while i < |Policies|
      invariant 0 <= i <= |Policies|
      invariant FirstPass(rs) == FirstPass(rs[i..])
    {
      var outcome := env.attempt(token, key, Policies[i]);
      assert rs[i..][0] == outcome && rs[i..][1..] == rs[i + 1..];
      if outcome == Pass {
        return true;
      } else if outcome == OtherError {
        return false;
      }
      i := i + 1;
    }
    return false;
  }

  // ---------------------------------------------------------------------
  // Identity resolution

  /**
   * The numeric id `get_org_name_from_jwt` looks up, or None when it returns
   * before the lookup: the owner id is missing, empty, not a string or not
   * an organization id (`O_`), or it decodes to nothing or to 0.
   */
  function OrgLookupId(env: Env, token: string): (r: Option<nat>)
    ensures r.Some? ==> 0 < r.value < TwoTo32
    ensures r.Some? ==>
      var owner := DecodeJwt(env, token, false);
      owner.JStr? && "O_" <= owner.s && DecodeGithubNodeId(owner.s) == r
  {
    var owner := DecodeJwt(env, token, false);
    if !Truthy(owner) || !owner.JStr? || !("O_" <= owner.s) then None
    else match DecodeGithubNodeId(owner.s)
      case None => None
      case Some(id) => if id == 0 then None else Some(id)
  }

  /**
   * `fetch_github_org_info(org_id)`: the parsed body of a 200 answer; any
   * other status, a failed request or an unparsable body gives None.
   */
  function FetchGithubOrgInfo(env: Env, orgId: nat): (r: Option<Json>)
    ensures r.Some? ==> env.orgApi(orgId) == Response(200, r)
    ensures env.orgApi(orgId).Response? && env.orgApi(orgId).status == 200 ==> r == env.orgApi(orgId).body
  {
    match env.orgApi(orgId)
    case Response(200, Some(j)) => Some(j)
    case _ => None
  }

  /** `org_info.get('login') if org_info else None`, with non-dict answers caught. */
  function LoginOf(info: Option<Json>): (r: Json)
    ensures r != JNull ==> info.Some? && info.value.JObj? && "login" in info.value.fields
    ensures r != JNull ==> r == info.value.fields["login"]
  {
    match info
    case None => JNull
    case Some(j) =>
      if !Truthy(j) || !j.JObj? then JNull else Get(j.fields, "login")
  }

  /** `get_org_name_from_jwt(token)`. */
  function OrgNameFromJwt(env: Env, token: string): (r: Json)
    ensures OrgLookupId(env, token).None? ==> r == JNull
    ensures r != JNull ==>
      && OrgLookupId(env, token).Some?
      && var info := env.orgApi(OrgLookupId(env, token).value);
         info.Response? && info.status == 200 && info.body.Some? && info.body.value.JObj?
         && "login" in info.body.value.fields && r == info.body.value.fields["login"]
  {
    match OrgLookupId(env, token)
    case None => JNull
    case Some(id) => LoginOf(FetchGithubOrgInfo(env, id))
  }

  /**
   * `get_org_name_and_verify_from_token`: the organization is resolved only
   * after a successful verification, and only a truthy name is returned.
   */
  method GetOrgNameAndVerifyFromToken(env: Env, token: string) returns (org: Json)
    ensures !Verified(env, token) ==> org == JNull
    ensures Verified(env, token) ==>
      org == (if Truthy(OrgNameFromJwt(env, token)) then OrgNameFromJwt(env, token) else JNull)
    ensures org != JNull ==> Truthy(org) && org == LoginOf(FetchGithubOrgInfo(env, OrgLookupId(env, token).value))
  {
    var isValid := VerifyGithubJwt(env, token);
    if isValid {
      var orgName := OrgNameFromJwt(env, token);
      if Truthy(orgName) {
        return orgName;
      }
      return JNull;
    }
    return JNull;
  }

  // ---------------------------------------------------------------------
  // Properties of verification

  /** No token is accepted unless every check before the signature passed. */
  lemma AcceptedTokensPassedEveryGate(env: Env, token: string)
    requires Verified(env, token)
    ensures env.unverifiedClaims(token).Some?
    ensures DecodeHeader(env, token).Some? && DecodeHeader(env, token).value.JObj?
    ensures var header := DecodeHeader(env, token).value.fields;
      var iss := Get(env.unverifiedClaims(token).value, "iss");
      var kid := Get(header, "kid");
      && Get(header, "alg") == JStr(RequiredAlg)
      && Truthy(iss) && IsTrustedIssuer(PyStr(env, iss))
      && Truthy(kid) && Hashable(kid)
      && PublicKeys(iss, env.jwks, env.meta, env.canConvert).Some?
      && kid in PublicKeys(iss, env.jwks, env.meta, env.canConvert).value
      && exists i :: 0 <= i < |Policies| &&
           env.attempt(token, PublicKeys(iss, env.jwks, env.meta, env.canConvert).value[kid], Policies[i]) == Pass
  {
    var key := PreSignature(env, token).key;
    FirstPassIff(Attempts(env, token, key));
  }

  /** Conversely, a token that passes every check reaches the signature attempts with its key. */
  lemma GatePasses(env: Env, token: string, claims: map<string, Json>, header: map<string, Json>,
                   keys: KeyMap, kid: Json)
    requires env.unverifiedClaims(token) == Some(claims)
    requires DecodeHeader(env, token) == Some(JObj(header))
    requires Get(header, "alg") == JStr(RequiredAlg)
    requires Truthy(Get(claims, "iss")) && IsTrustedIssuer(PyStr(env, Get(claims, "iss")))
    requires PublicKeys(Get(claims, "iss"), env.jwks, env.meta, env.canConvert) == Some(keys)
    requires Get(header, "kid") == kid && Truthy(kid) && Hashable(kid) && kid in keys
    ensures PreSignature(env, token) == Proceed(keys[kid])
  {
  }

  /** A header whose `alg` is not RS256 is rejected first, whatever the signature. */
  lemma WrongAlgorithmRejected(env: Env, token: string, header: map<string, Json>)
    requires env.unverifiedClaims(token).Some?
    requires DecodeHeader(env, token) == Some(JObj(header))
    requires Get(header, "alg") != JStr(RequiredAlg)
    ensures PreSignature(env, token) == Reject(UnsupportedAlgorithm)
    ensures !Verified(env, token)
  {
  }

  /** An `iss` claim with none of the trusted names is rejected, whatever the signature. */
  lemma UntrustedIssuerRejected(env: Env, token: string, header: map<string, Json>, iss: string)
    requires env.unverifiedClaims(token).Some? && Get(env.unverifiedClaims(token).value, "iss") == JStr(iss)
    requires DecodeHeader(env, token) == Some(JObj(header))
    requires Get(header, "alg") == JStr(RequiredAlg)
    requires !Contains(WebIssuer, iss) && !Contains(ActionsIssuer, iss)
    ensures PreSignature(env, token) == Reject(UntrustedIssuer)
    ensures !Verified(env, token)
  {
  }

  /** A trusted token without a `kid` is rejected before any key is fetched. */
  lemma MissingKidRejected(env: Env, token: string, header: map<string, Json>)
    requires env.unverifiedClaims(token).Some?
    requires var iss := Get(env.unverifiedClaims(token).value, "iss");
      Truthy(iss) && IsTrustedIssuer(PyStr(env, iss))
    requires DecodeHeader(env, token) == Some(JObj(header))
    requires Get(header, "alg") == JStr(RequiredAlg) && !Truthy(Get(header, "kid"))
    ensures PreSignature(env, token) == Reject(MissingKeyId)
  {
  }

  /**
   * The first option set checks neither expiry nor audience: a token whose
   * signature passes it is accepted, whatever the stricter sets would say.
   */
  lemma ExpiryIgnoredByFirstPolicy(env: Env, token: string)
    requires PreSignature(env, token).Proceed?
    requires env.attempt(token, PreSignature(env, token).key, Policies[0]) == Pass
    ensures Verified(env, token)
  {
  }

  /** If all four attempts fail, the token is rejected. */
  lemma AllPoliciesFailRejected(env: Env, token: string)
    requires PreSignature(env, token).Proceed?
    requires forall i :: 0 <= i < |Policies| ==>
      env.attempt(token, PreSignature(env, token).key, Policies[i]) != Pass
    ensures !Verified(env, token)
  {
    FirstPassIff(Attempts(env, token, PreSignature(env, token).key));
  }

  /** An exception other than InvalidTokenError ends the loop with a rejection. */
  lemma OtherErrorStopsTheLoop(env: Env, token: string, i: nat)
    requires PreSignature(env, token).Proceed? && i < |Policies|
    requires env.attempt(token, PreSignature(env, token).key, Policies[i]) == OtherError
    requires forall j :: 0 <= j < i ==> env.attempt(token, PreSignature(env, token).key, Policies[j]) == InvalidToken
    ensures !Verified(env, token)
  {
    FirstPassIff(Attempts(env, token, PreSignature(env, token).key));
  }

  /** Policy `p` checks no more than policy `q`. */
  predicate Laxer(p: Policy, q: Policy)
  {
    (p.verifyAud ==> q.verifyAud) && (p.verifyExp ==> q.verifyExp)
  }

  /**
   * When passing a stricter option set implies passing a laxer one, the
   * three later option sets never change the verdict: acceptance is decided
   * by the first one alone.
   */
  lemma LaterPoliciesRedundant(env: Env, token: string)
    requires PreSignature(env, token).Proceed?
    requires var key := PreSignature(env, token).key;
      forall p: Policy, q: Policy :: Laxer(p, q) && env.attempt(token, key, q) == Pass ==> env.attempt(token, key, p) == Pass
    ensures Verified(env, token) <==> env.attempt(token, PreSignature(env, token).key, Policies[0]) == Pass
  {
    var key := PreSignature(env, token).key;
    var rs := Attempts(env, token, key);
    FirstPassIff(rs);
    if Verified(env, token) {
      var k :| 0 <= k < |rs| && rs[k] == Pass && forall j :: 0 <= j < k ==> rs[j] == InvalidToken;
      assert Laxer(Policies[0], Policies[k]);
    }
  }

  /**
   * Without the Actions issuer only the meta key is available, and it is
   * filed under `default`: such a token is accepted only with that kid.
   */
  lemma MetaKeyNeedsDefaultKid(env: Env, token: string)
    requires Verified(env, token)
    requires var iss := Get(env.unverifiedClaims(token).value, "iss");
      iss.JStr? && !Contains(ActionsIssuer, iss.s)
    ensures Get(DecodeHeader(env, token).value.fields, "kid") == DefaultKid
  {
    AcceptedTokensPassedEveryGate(env, token);
  }

  // ---------------------------------------------------------------------
  // Properties of decode_jwt

  /** With signature checking, only the meta tier is consulted. */
  lemma DecodeJwtIgnoresJwks(env: Env, token: string, other: HttpResponse)
    ensures DecodeJwt(env.(jwks := other), token, true) == DecodeJwt(env, token, true)
  {
  }

  /**
   * With signature checking, a header without `kid` looks up `default`; a
   * kid that is not in the map gives None; a pass under the looked-up key
   * gives the `owner_id` claim, whether the header names its kid or not.
   */
  lemma DecodeJwtKidLookup(env: Env, token: string, header: map<string, Json>, keys: KeyMap)
    requires DecodeHeader(env, token) == Some(JObj(header))
    requires MetaKeys(env.meta) == Some(keys)
    ensures "kid" !in header && DefaultKid !in keys ==> DecodeJwt(env, token, true) == JNull
    ensures "kid" in header && header["kid"] !in keys ==> DecodeJwt(env, token, true) == JNull
    ensures var kid := if "kid" in header then header["kid"] else DefaultKid;
      (Hashable(kid) && kid in keys && env.attempt(token, keys[kid], Policies[0]) == Pass
       && env.unverifiedClaims(token).Some?) ==>
      DecodeJwt(env, token, true) == Get(env.unverifiedClaims(token).value, "owner_id")
  {
  }

  // ---------------------------------------------------------------------
  // Properties of identity resolution

  /**
   * An owner id that is missing, empty, not a string or not an organization
   * id never reaches the lookup, and the name is None.
   */
  lemma NoLookupWithoutOrgOwner(env: Env, token: string)
    requires var owner := DecodeJwt(env, token, false);
      !Truthy(owner) || !owner.JStr? || !("O_" <= owner.s)
    ensures OrgLookupId(env, token).None? && OrgNameFromJwt(env, token) == JNull
  {
  }

  /** An organization id that does not decode, or decodes to 0, never reaches the lookup. */
  lemma NoLookupForUndecodableId(env: Env, token: string, owner: string)
    requires DecodeJwt(env, token, false) == JStr(owner) && "O_" <= owner
    requires DecodeGithubNodeId(owner).None? || DecodeGithubNodeId(owner) == Some(0)
    ensures OrgLookupId(env, token).None? && OrgNameFromJwt(env, token) == JNull
  {
  }

  /** When no lookup happens, the lookup's answers do not matter at all. */
  lemma NameIndependentOfLookupWhenSkipped(env: Env, token: string, api: nat -> HttpResponse)
    requires OrgLookupId(env, token).None?
    ensures OrgNameFromJwt(env.(orgApi := api), token) == JNull
  {
  }

  /**
   * A failed request, a status other than 200, an unparsable body, or an
   * answer that is not an object with `login`, gives None.
   */
  lemma FailedLookupGivesNone(env: Env, token: string)
    requires OrgLookupId(env, token).Some?
    requires var resp := env.orgApi(OrgLookupId(env, token).value);
      || resp.NetFail?
      || resp.status != 200
      || resp.body.None?
      || !resp.body.value.JObj?
      || "login" !in resp.body.value.fields
    ensures OrgNameFromJwt(env, token) == JNull
  {
  }

  /** An Actions issuer and a JWKS document holding one usable key give that key alone. */
  lemma SingleJwksKey(iss: string, jwks: HttpResponse, meta: HttpResponse, canConvert: Json -> bool,
                      entry: map<string, Json>)
    requires Contains(ActionsIssuer, iss)
    requires "kid" in entry && Hashable(entry["kid"]) && canConvert(JObj(entry))
    requires jwks == Response(200, Some(JObj(map["keys" := JArr([JObj(entry)])])))
    ensures PublicKeys(JStr(iss), jwks, meta, canConvert) == Some(map[entry["kid"] := JwkKey(JObj(entry))])
  {
    var es := [JObj(entry)];
    JwksAnswerIsFinal(iss, 200, map["keys" := JArr(es)], es, meta, meta, canConvert);
    assert es[..0] == [] && es[..1] == es;
  }

  /** An `O_` owner id that decodes to a positive id is looked up under that id. */
  lemma OrgOwnerLookup(env: Env, token: string, owner: string, id: nat)
    requires DecodeJwt(env, token, false) == JStr(owner)
    requires "O_" <= owner
    requires DecodeGithubNodeId(owner) == Some(id) && id > 0
    ensures OrgLookupId(env, token) == Some(id)
    ensures OrgNameFromJwt(env, token) == LoginOf(FetchGithubOrgInfo(env, id))
  {
  }

  /** An organization record with a `login` field yields that login. */
  lemma LoginOfRecord(info: map<string, Json>)
    requires "login" in info
    ensures LoginOf(Some(JObj(info))) == info["login"]
  {
    assert info != map[];
  }

  /** The name reported for an `O_` owner id that decodes to a positive id. */
  lemma OrgNameOfOwner(env: Env, token: string, owner: string, id: nat, info: map<string, Json>)
    requires env.unverifiedClaims(token).Some? && Get(env.unverifiedClaims(token).value, "owner_id") == JStr(owner)
    requires "O_" <= owner
    requires DecodeGithubNodeId(owner) == Some(id) && id > 0
    requires env.orgApi(id) == Response(200, Some(JObj(info))) && "login" in info
    ensures OrgNameFromJwt(env, token) == info["login"]
  {
    OrgOwnerLookup(env, token, owner, id);
    LoginOfRecord(info);
  }

  /**
   * End to end: an Actions token for an organization, signed with the one
   * key of the JWKS document, verifies under the first option set, and the
   * organization's login is what the lookup reports.
   */
  lemma EndToEnd(env: Env, token: string, iss: string, owner: string, id: nat,
                 entry: map<string, Json>, info: map<string, Json>)
    requires env.unverifiedClaims(token) == Some(map["iss" := JStr(iss), "owner_id" := JStr(owner)])
    requires Contains(ActionsIssuer, iss)
    requires "kid" in entry && entry["kid"].JStr? && entry["kid"].s != "" && env.canConvert(JObj(entry))
    requires DecodeHeader(env, token) == Some(JObj(map["alg" := JStr(RequiredAlg), "kid" := entry["kid"]]))
    requires env.jwks == Response(200, Some(JObj(map["keys" := JArr([JObj(entry)])])))
    requires env.attempt(token, JwkKey(JObj(entry)), Policies[0]) == Pass
    requires "O_" <= owner
    requires DecodeGithubNodeId(owner) == Some(id) && id > 0
    requires env.orgApi(id) == Response(200, Some(JObj(info))) && "login" in info
    ensures Verified(env, token)
    ensures OrgNameFromJwt(env, token) == info["login"]
  {
    var claims := map["iss" := JStr(iss), "owner_id" := JStr(owner)];
    var header := map["alg" := JStr(RequiredAlg), "kid" := entry["kid"]];
    assert Get(claims, "iss") == JStr(iss) && Get(claims, "owner_id") == JStr(owner);
    assert Get(header, "alg") == JStr(RequiredAlg) && Get(header, "kid") == entry["kid"];
    SingleJwksKey(iss, env.jwks, env.meta, env.canConvert, entry);
    GatePasses(env, token, claims, header, map[entry["kid"] := JwkKey(JObj(entry))], entry["kid"]);
    ExpiryIgnoredByFirstPolicy(env, token);
    OrgNameOfOwner(env, token, owner, id, info);
  }
}
