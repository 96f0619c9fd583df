/**
 * Key source selection: the two-tier choice between the GitHub Actions JWKS
 * document (section 5 of RFC 7517) and the `hooks.public_key` field of
 * `api.github.com/meta`, building a map from key id to key.
 *
 * HTTP traffic is an input: each endpoint's answer is an `HttpResponse`.
 * `PyJWK.from_dict` is the oracle `canConvert`, which says for each JWKS
 * entry whether the conversion succeeds; a converted key is represented by
 * the entry it came from.
 *
 * The result is None when a Python exception other than RequestException
 * (a TypeError from an unexpected JSON shape) escapes the function.
 */
module KeySource {
  import opened Wrappers
  import opened PyJson
  import IssuerPolicy

  /**
   * What `requests.get(...)` followed by `response.json()` gives: a
   * RequestException (connection failure or timeout), or a status code and
   * the body, None when the body is not JSON.
   */
  datatype HttpResponse = NetFail | Response(status: int, body: Option<Json>)

  /** `raise_for_status()` raises for client and server error codes. */
  predicate RaisesForStatus(status: int)
  {
    400 <= status < 600
  }

  /** A verification key: converted from a JWKS entry, or the raw meta value. */
  datatype PublicKey = JwkKey(jwk: Json) | MetaKey(value: Json)

  /** Key ids are whatever hashable JSON values the documents carry. */
  type KeyMap = map<Json, PublicKey>

  const DefaultKid: Json := JStr("default")

  // ---------------------------------------------------------------------
  // The JWKS tier

  /** What one iteration of the JWKS loop does with one entry of `keys`. */
  datatype EntryStep = Store(kid: Json, key: PublicKey) | Skip | Raise

  /**
   * One entry: `'kid' in key` raises for a number, a boolean or null; a
   * failed conversion or an unhashable kid is swallowed by the inner
   * `try`; a list or string entry cannot be indexed by `'kid'` and is
   * skipped the same way.
   */
  function StepOf(entry: Json, canConvert: Json -> bool): (r: EntryStep)
    ensures r.Raise? <==> (entry.JNull? || entry.JBool? || entry.JNum?)
    ensures r.Store? <==>
      entry.JObj? && "kid" in entry.fields && canConvert(entry) && Hashable(entry.fields["kid"])
    ensures r.Store? ==> r.kid == entry.fields["kid"] && r.key == JwkKey(entry)
  {
    match PyContains("kid", entry)
    case None => Raise
    case Some(hasKid) =>
      if hasKid && entry.JObj? && canConvert(entry) && Hashable(entry.fields["kid"])
      then Store(entry.fields["kid"], JwkKey(entry))
      else Skip
  }

  predicate StoresKid(entry: Json, canConvert: Json -> bool, kid: Json)
  {
    StepOf(entry, canConvert).Store? && StepOf(entry, canConvert).kid == kid
  }

  /** Entry `i` is the last one in `es` that stores `kid`. */
  predicate LastStore(es: seq<Json>, canConvert: Json -> bool, kid: Json, i: int)
  {
    && 0 <= i < |es|
    && StoresKid(es[i], canConvert, kid)
    && forall j :: i < j < |es| ==> !StoresKid(es[j], canConvert, kid)
  }

  /** A converted JWKS entry filed under the entry's own `kid`. */
  predicate OwnKidKey(kid: Json, key: PublicKey, canConvert: Json -> bool)
  {
    && key.JwkKey? && key.jwk.JObj? && canConvert(key.jwk)
    && "kid" in key.jwk.fields && key.jwk.fields["kid"] == kid
  }

  /** The map the JWKS loop has built after the entries `es`, in order. */
  function JwksKeys(es: seq<Json>, canConvert: Json -> bool): (r: Option<KeyMap>)
    ensures r.Some? ==> forall kid :: kid in r.value ==> OwnKidKey(kid, r.value[kid], canConvert)
    decreases |es|
  {
    if |es| == 0 then Some(map[])
    else match JwksKeys(es[..|es| - 1], canConvert)
      case None => None
      case Some(m) =>
        match StepOf(es[|es| - 1], canConvert)
        case Raise => None
        case Skip => Some(m)
        case Store(kid, key) => Some(m[kid := key])
  }

  /** The loop fails exactly when some entry raises. */
  lemma {:induction false} JwksKeysRaises(es: seq<Json>, canConvert: Json -> bool)
    ensures JwksKeys(es, canConvert).None? <==>
      exists i :: 0 <= i < |es| && StepOf(es[i], canConvert).Raise?
    decreases |es|
  {
    if |es| > 0 {
      var init := es[..|es| - 1];
      JwksKeysRaises(init, canConvert);
      if exists i :: 0 <= i < |init| && StepOf(init[i], canConvert).Raise? {
        var i :| 0 <= i < |init| && StepOf(init[i], canConvert).Raise?;
        assert es[i] == init[i];
      }
      if exists i :: 0 <= i < |es| && StepOf(es[i], canConvert).Raise? {
        var i :| 0 <= i < |es| && StepOf(es[i], canConvert).Raise?;
        if i < |init| { assert init[i] == es[i]; }
      }
    }
  }

  /**
   * Content of the JWKS map: a key id is present exactly when some entry
   * stores it, and it maps to the key of the LAST such entry, so a later
   * duplicate kid overwrites an earlier one.
   */
  lemma {:induction false} JwksKeysContent(es: seq<Json>, canConvert: Json -> bool)
    requires JwksKeys(es, canConvert).Some?
    ensures forall kid :: kid in JwksKeys(es, canConvert).value <==>
      exists i :: 0 <= i < |es| && StoresKid(es[i], canConvert, kid)
    ensures forall kid, i :: LastStore(es, canConvert, kid, i) ==>
      kid in JwksKeys(es, canConvert).value && JwksKeys(es, canConvert).value[kid] == JwkKey(es[i])
    decreases |es|
  {
    if |es| > 0 {
      var n := |es| - 1;
      var init := es[..n];
      var m := JwksKeys(es, canConvert).value;
      JwksKeysContent(init, canConvert);
      var m0 := JwksKeys(init, canConvert).value;
      forall kid ensures kid in m <==> exists i :: 0 <= i < |es| && StoresKid(es[i], canConvert, kid) {
        if kid in m0 {
          var i :| 0 <= i < |init| && StoresKid(init[i], canConvert, kid);
          assert es[i] == init[i];
        }
        if exists i :: 0 <= i < |es| && StoresKid(es[i], canConvert, kid) {
          var i :| 0 <= i < |es| && StoresKid(es[i], canConvert, kid);
          if i < n { assert init[i] == es[i]; }
        }
      }
      forall kid, i | LastStore(es, canConvert, kid, i)
        ensures kid in m && m[kid] == JwkKey(es[i])
      {
        if i < n {
          assert !StoresKid(es[n], canConvert, kid);
          assert init[i] == es[i];
          assert LastStore(init, canConvert, kid, i) by {
            forall j | i < j < |init| ensures !StoresKid(init[j], canConvert, kid) {
              assert init[j] == es[j];
            }
          }
        }
      }
    }
  }

  /** The entries `for key in v` visits, or None when `v` is not iterable. */
  function Iterated(v: Json): (r: Option<seq<Json>>)
    ensures r.None? <==> (v.JNull? || v.JBool? || v.JNum?)
    ensures v.JArr? ==> r == Some(v.items)
  {
    match v
    case JArr(xs) => Some(xs)
    // a string yields its one-character strings
    case JStr(s) => Some(seq(|s|, i requires 0 <= i < |s| => JStr([s[i]])))
    // a dict yields its keys, which are strings and so are all skipped:
    // leaving them out gives the same map, whatever their order
    case JObj(_) => Some([])
    case _ => None
  }

  /** Outcome of the JWKS tier: a final answer, or fall through to meta. */
  datatype JwksOutcome = Done(keys: Option<KeyMap>) | FallThrough

  /** The JWKS tier as a specification (the method below runs its loop). */
  function JwksTier(resp: HttpResponse, canConvert: Json -> bool): (r: JwksOutcome)
    ensures resp.NetFail? ==> r == FallThrough
    ensures resp.Response? && (RaisesForStatus(resp.status) || resp.body.None?) ==> r == FallThrough
    ensures r.Done? && r.keys.Some? ==> forall kid :: kid in r.keys.value ==> OwnKidKey(kid, r.keys.value[kid], canConvert)
  {
    match resp
    case NetFail => FallThrough
    case Response(status, body) =>
      if RaisesForStatus(status) || body.None? then FallThrough
      else
        var jwks := body.value;
        match PyContains("keys", jwks)
        case None => Done(None)
        case Some(false) => FallThrough
        case Some(true) =>
          match PyIndex(jwks, "keys")
          case None => Done(None)
          case Some(v) =>
            match Iterated(v)
            case None => Done(None)
            case Some(es) => Done(JwksKeys(es, canConvert))
  }

  // ---------------------------------------------------------------------
  // The meta tier

  /** The `/meta` fallback: `{"default": hooks.public_key}` when both fields exist, else `{}`. */
  function MetaKeys(resp: HttpResponse): (r: Option<KeyMap>)
    ensures r.Some? ==> r.value.Keys <= {DefaultKid}
    ensures r.Some? && DefaultKid in r.value ==> r.value[DefaultKid].MetaKey?
    ensures resp.NetFail? ==> r == Some(map[])
    ensures resp.Response? && RaisesForStatus(resp.status) ==> r == Some(map[])
    ensures resp.Response? && resp.body.None? ==> r == Some(map[])
    ensures (resp.Response? && !RaisesForStatus(resp.status) && resp.body.Some? && resp.body.value.JObj?
             && "hooks" !in resp.body.value.fields) ==> r == Some(map[])
  {
    match resp
    case NetFail => Some(map[])
    case Response(status, body) =>
      if RaisesForStatus(status) || body.None? then Some(map[])
      else
        var data := body.value;
        match PyContains("hooks", data)
        case None => None
        case Some(false) => Some(map[])
        case Some(true) =>
          match PyIndex(data, "hooks")
          case None => None
          case Some(hooks) =>
            match PyContains("public_key", hooks)
            case None => None
            case Some(false) => Some(map[])
            case Some(true) =>
              match PyIndex(hooks, "public_key")
              case None => None
              case Some(pk) => Some(map[DefaultKid := MetaKey(pk)])
  }

  // ---------------------------------------------------------------------
  // The whole selection

  /** Whether the JWKS tier is attempted: `issuer and 'actions...' in issuer`. */
  function UsesJwks(issuer: Json): (r: Option<bool>)
    ensures !Truthy(issuer) ==> r == Some(false)
    ensures issuer.JStr? ==> r == Some(Contains(IssuerPolicy.ActionsIssuer, issuer.s))
  {
    if !Truthy(issuer) then Some(false) else PyContains(IssuerPolicy.ActionsIssuer, issuer)
  }

  /** `get_github_public_keys(issuer)` as a specification. */
  function PublicKeys(issuer: Json, jwks: HttpResponse, meta: HttpResponse, canConvert: Json -> bool)
    : (r: Option<KeyMap>)
    ensures r.Some? ==> forall kid :: kid in r.value ==>
      OwnKidKey(kid, r.value[kid], canConvert) || (kid == DefaultKid && r.value[kid].MetaKey?)
    ensures r.Some? ==> forall kid :: kid in r.value && r.value[kid].JwkKey? ==> UsesJwks(issuer) == Some(true)
  {
    match UsesJwks(issuer)
    case None => None
    case Some(false) => MetaKeys(meta)
    case Some(true) =>
      match JwksTier(jwks, canConvert)
      case Done(keys) => keys
      case FallThrough => MetaKeys(meta)
  }

  /**
   * `get_github_public_keys`: the JWKS tier's loop builds the map entry by
   * entry, skipping entries that fail, and stops at an entry that raises.
   */
  method GetGithubPublicKeys(issuer: Json, jwks: HttpResponse, meta: HttpResponse, canConvert: Json -> bool)
    returns (keys: Option<KeyMap>)
    ensures keys == PublicKeys(issuer, jwks, meta, canConvert)
  {
    var useJwks := UsesJwks(issuer);
    if useJwks.None? {
      return None;
    }
    if useJwks.value && jwks.Response? && !RaisesForStatus(jwks.status) && jwks.body.Some? {
      var doc := jwks.body.value;
      var hasKeys := PyContains("keys", doc);
      if hasKeys.None? {
        return None;
      }
      if hasKeys.value {
        var v := PyIndex(doc, "keys");
        if v.None? {
          return None;
        }
        var entries := Iterated(v.value);
        if entries.None? {
          return None;
        }
        var es := entries.value;
        var acc: KeyMap := map[];
        var i := 0;
        while i < |es|
          invariant 0 <= i <= |es|
          invariant JwksKeys(es[..i], canConvert) == Some(acc)
        {
          assert es[..i + 1][..i] == es[..i];
          match StepOf(es[i], canConvert) {
            case Raise =>
              JwksKeysRaisePrefix(es, canConvert, i);
              return None;
            case Skip =>
            case Store(kid, key) =>
              acc := acc[kid := key];
          }
          i := i + 1;
        }
        assert es[..i] == es;
        return Some(acc);
      }
    }
    keys := MetaKeys(meta);
  }

  /** One raising entry makes the whole loop raise. */
  lemma JwksKeysRaisePrefix(es: seq<Json>, canConvert: Json -> bool, i: nat)
    requires i < |es| && StepOf(es[i], canConvert).Raise?
    ensures JwksKeys(es, canConvert).None?
  {
    JwksKeysRaises(es, canConvert);
  }

  // ---------------------------------------------------------------------
  // Properties of the selection

  /** Without an Actions issuer hint only the meta tier is consulted. */
  lemma MetaOnlyWithoutHint(issuer: Json, jwks: HttpResponse, meta: HttpResponse, canConvert: Json -> bool)
    requires !Truthy(issuer) || (issuer.JStr? && !Contains(IssuerPolicy.ActionsIssuer, issuer.s))
    ensures PublicKeys(issuer, jwks, meta, canConvert) == MetaKeys(meta)
  {
  }

  /**
   * When the JWKS document has a `keys` list, its map is the answer, empty
   * or not: the meta endpoint is never consulted.
   */
  lemma JwksAnswerIsFinal(iss: string, status: int, doc: map<string, Json>, es: seq<Json>,
                          meta1: HttpResponse, meta2: HttpResponse, canConvert: Json -> bool)
    requires Contains(IssuerPolicy.ActionsIssuer, iss)
    requires !RaisesForStatus(status) && "keys" in doc && doc["keys"] == JArr(es)
    ensures var jwks := Response(status, Some(JObj(doc)));
      PublicKeys(JStr(iss), jwks, meta1, canConvert) == JwksKeys(es, canConvert)
      && PublicKeys(JStr(iss), jwks, meta2, canConvert) == JwksKeys(es, canConvert)
  {
  }

  /**
   * The JWKS tier falls through to meta on a RequestException, an error
   * status, a body that is not JSON, or a document without `keys`.
   */
  lemma JwksFallsThrough(iss: string, jwks: HttpResponse, meta: HttpResponse, canConvert: Json -> bool)
    requires Contains(IssuerPolicy.ActionsIssuer, iss)
    requires || jwks.NetFail?
             || (jwks.Response? && RaisesForStatus(jwks.status))
             || (jwks.Response? && jwks.body.None?)
             || (jwks.Response? && jwks.body.Some? && jwks.body.value.JObj? && "keys" !in jwks.body.value.fields)
    ensures PublicKeys(JStr(iss), jwks, meta, canConvert) == MetaKeys(meta)
  {
  }

  /** The meta tier yields the default key exactly when both fields are there. */
  lemma MetaDefaultKey(status: int, data: map<string, Json>, hooks: map<string, Json>)
    requires !RaisesForStatus(status) && "hooks" in data && data["hooks"] == JObj(hooks)
    ensures "public_key" in hooks ==>
      MetaKeys(Response(status, Some(JObj(data)))) == Some(map[DefaultKid := MetaKey(hooks["public_key"])])
    ensures "public_key" !in hooks ==> MetaKeys(Response(status, Some(JObj(data)))) == Some(map[])
  {
  }

  /**
   * A JWKS list of objects never raises, and every entry with a hashable
   * kid that converts has its kid in the map; failed entries are skipped
   * without affecting the others.
   */
  lemma AllGoodEntriesKept(es: seq<Json>, canConvert: Json -> bool)
    requires forall i :: 0 <= i < |es| ==> es[i].JObj?
    ensures JwksKeys(es, canConvert).Some?
    ensures forall i :: 0 <= i < |es| && "kid" in es[i].fields && canConvert(es[i]) && Hashable(es[i].fields["kid"]) ==>
      es[i].fields["kid"] in JwksKeys(es, canConvert).value
  {
    JwksKeysRaises(es, canConvert);
    JwksKeysContent(es, canConvert);
  }
}
