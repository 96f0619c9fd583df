# GitHub token verification and organization lookup, in Dafny

This project models `decode_jwt.py`, a small tool that decides whether a
JSON Web Token was signed by GitHub, and if so, which GitHub organization it
belongs to. The tool works in four steps:

1. **Public keys.** `get_github_public_keys` fetches GitHub's keys. For an
   Actions issuer it reads the JWKS document of
   `token.actions.githubusercontent.com`. Otherwise, or when that request
   fails, it falls back to the `hooks.public_key` field of `api.github.com/meta`.
2. **Verification.** `verify_github_jwt` checks the token in this order:
   - the header algorithm must be RS256;
   - the issuer must contain one of three GitHub names;
   - the header must carry a key id (`kid`) that is in the key map;
   - the signature is then tried under four option sets, from the most
     lenient (no audience and no expiry check) to the strictest.
3. **Owner id.** `decode_jwt` reads the `owner_id` claim. It can do this with
   or without a signature check.
4. **Organization lookup.** `decode_github_node_id` turns a GitHub node id
   (`O_kgDOB9m9vA`) into the numeric REST id. The id is the last four bytes
   of the base64url payload, read as a big-endian integer.
   `get_org_name_from_jwt` then asks the REST API for that organization's
   `login`.

`get_org_name_and_verify_from_token` combines verification and lookup.

## Modules

- `wrappers.dfy`: the `Option` type.
- `pyjson.dfy` (`PyJson`):
  - JSON values after `json.loads`;
  - Python truthiness, hashability, `dict.get`, `x in v`, `v[k]`, and the
    substring test.
- `base64.dfy` (`Base64`):
  - Python's `base64.b64decode` without `validate`, modelled character by
    character as CPython's lenient decoder: non-ASCII text is refused,
    characters outside the alphabet are skipped, and the padding that closes
    a group stops the decoding;
  - the two padding schemes of the source (node ids and token headers);
  - a reference group-wise decoder and a reference encoder.
- `node_id.dfy` (`NodeId`): the node-id decoder.
- `issuer_policy.dfy` (`IssuerPolicy`): the algorithm constant and the
  issuer allow-list.
- `key_source.dfy` (`KeySource`):
  - the JWKS tier and the meta tier;
  - the method that runs the JWKS loop, proved against the specification
    function `PublicKeys`.
- `github_token.dfy` (`GithubToken`):
  - `decode_jwt`, `verify_github_jwt`, the organization lookup and the
    combined entry point;
  - `VerifyGithubJwt` is a method proved against the predicate `Verified`.

Everything the code cannot see is a field of the environment `Env`:

- the answers of the three HTTP endpoints;
- PyJWT's two kinds of `jwt.decode`;
- `PyJWK.from_dict`;
- `json.loads`;
- `str()` of a non-string value.

Where the code behaves differently from what its design intends, the model
follows the code:

- **Node-id parts may be empty.** An id with an empty prefix or an empty
  suffix around the first `_` is not rejected on that ground. `O_` decodes to
  no bytes and gives None only because the payload is shorter than four bytes.
- **No three-segment check.** The tool itself does not check that a token
  has three segments. The header is `token.split('.')[0]`. Rejecting other
  shapes is left to PyJWT, which is an oracle here.
- **Header padding.** The header is padded with `4 - len % 4` characters,
  which is four `=` when the length is already a multiple of four. On
  alphabet-only segments this is harmless (`HeaderAndNodePaddingAgree`). On
  other segments it is not (`PaddingPathsDifferOnJunk`).
- **Key fetching can fail.** Fetching keys does not always degrade to an
  empty map. A JSON body of an unexpected shape raises `TypeError`, which is
  not a `RequestException`. It escapes `get_github_public_keys`, and the model
  returns None for it. Examples are a JWKS document that is a string
  containing `keys`, or a `keys` value that is a number.
- **Non-success statuses.** Only statuses 400 to 599 count as failures
  (`raise_for_status`). Any other status with a JSON body is read as an answer.

## Model

| member | source | states |
|---|---|---|
| `PyJson.ContainsTransitive` | decode_jwt.py:239 | the substring relation is transitive |
| `Base64.UrlRoundTrip` | decode_jwt.py:132 | the `-`/`_` translation undoes the base64url alphabet on every standard base64 text: nothing is lost or confused |
| `Base64.NodePad` | decode_jwt.py:135-136 | the result is the input followed by fewer than four `=`, aligned to 4, and unchanged when already aligned |
| `Base64.HeaderPad` | decode_jwt.py:77-78 | the result is the input followed by one to four `=`, aligned to 4, four when already aligned |
| `Base64.Scan` | decode_jwt.py:139 | the decoding loop only ever appends to the bytes it has produced |
| `Base64.B64Decode` | decode_jwt.py:139 | text with a non-ASCII character is refused |
| `Base64.LenientAgreesWithReference` | decode_jwt.py:139 | on data characters followed by any number of `=`, the lenient decoder gives the group-wise reference bytes, and fails exactly when the last group is one character or lacks its padding |
| `Base64.JunkIgnored` | decode_jwt.py:139 | an ASCII character outside the alphabet that is not `=` can be removed without changing the outcome |
| `Base64.TrailingDataIgnored` | decode_jwt.py:139 | after the padding that closes the last group, whatever ASCII text follows is never read |
| `Base64.DecodeEncode` | decode_jwt.py:139 | the reference decoder inverts the reference encoder on every byte string |
| `Base64.HeaderAndNodePaddingAgree` | decode_jwt.py:76-79 | on an alphabet-only segment, the header path (always pad, then translate) and the node path (translate, then pad if needed) give the same outcome |
| `Base64.PaddingPathsDifferOnJunk` | decode_jwt.py:77-79 | on `ab!!` the header path decodes and the node path fails: the two paddings are not interchangeable in general |
| `Base64.NodePadDecodesData` | decode_jwt.py:135-139 | an alphabet-only string whose length is not 1 mod 4 decodes, once node-padded, to its reference bytes |
| `Base64.NodePadRejectsDanglingChar` | decode_jwt.py:135-139 | an alphabet-only string of length 1 mod 4 never decodes, whatever number of `=` follows it, node padding included |
| `Base64.DecodeNodeSuffix` | decode_jwt.py:129-139 | on base64url text, the node path fails exactly when the length is 1 mod 4, and otherwise gives the reference bytes |
| `Base64.DecodeHeaderSegment` | decode_jwt.py:76-79 | on base64url text, the header path fails exactly when the length is 1 mod 4, and otherwise gives the reference bytes |
| `Base64.HeaderSegmentRoundTrip` | decode_jwt.py:76-79 | an unpadded base64url encoding of any bytes decodes back to those bytes through the header path |
| `Base64.NodeSuffixRoundTrip` | decode_jwt.py:129-139 | an unpadded base64url encoding of any bytes decodes back to those bytes |
| `NodeId.SplitFirst` | decode_jwt.py:122-125 | no separator gives None; otherwise the first part has no separator and the parts rebuild the input |
| `NodeId.SplitUnique` | decode_jwt.py:122 | splitting `prefix + sep + suffix` with no `sep` in the prefix gives exactly those two parts |
| `NodeId.BigEndian32` | decode_jwt.py:143 | the unpacked value is below 2^32 |
| `NodeId.UnpackPack` | decode_jwt.py:143 | unpacking inverts big-endian packing for every 32-bit value |
| `NodeId.DecodeGithubNodeId` | decode_jwt.py:110-149 | an id without `_` gives None, and every decoded id is below 2^32 |
| `NodeId.FirstUnderscoreSplits` | decode_jwt.py:122-146 | only the first `_` separates: the whole rest is decoded, and the id is the last four bytes when there are at least four |
| `NodeId.NodeIdRoundTrip` | decode_jwt.py:110-149 | any prefix, `_`, and the base64url of any bytes ending in the packed id decodes to that id: earlier bytes never matter |
| `NodeId.ShortPayloadRejected` | decode_jwt.py:142-146 | a payload of fewer than four bytes gives None |
| `NodeId.GoldenVector` | decode_jwt.py:112 | `O_kgDOB9m9vA` decodes to 131710396 |
| `IssuerPolicy.AnyContainedIff` | decode_jwt.py:239 | the `any(...)` test holds exactly when some listed name occurs in the issuer |
| `IssuerPolicy.IsTrustedIssuer` | decode_jwt.py:237-239 | an issuer is trusted exactly when it contains `github.com` or `actions.githubusercontent.com`: the `api.github.com` entry is redundant |
| `IssuerPolicy.LookalikeIssuerTrusted` | decode_jwt.py:239 | `https://evilgithub.com` is trusted: the test is a substring test, not a host comparison |
| `IssuerPolicy.UnrelatedIssuerRejected` | decode_jwt.py:239 | `https://accounts.google.com` is not trusted |
| `KeySource.JwksKeys` | decode_jwt.py:36-45 | every key the JWKS loop stores is a converted entry filed under that entry's own `kid` |
| `KeySource.JwksTier` | decode_jwt.py:26-47 | a failed request, an error status or a non-JSON body falls through; a final map holds only converted entries under their own `kid` |
| `KeySource.StepOf` | decode_jwt.py:38-43 | one JWKS entry raises exactly when it is a number, boolean or null, and stores exactly when it is a dict with a hashable `kid` that converts, under that kid |
| `KeySource.JwksKeysRaises` | decode_jwt.py:36-45 | the JWKS loop raises exactly when some entry raises |
| `KeySource.JwksKeysContent` | decode_jwt.py:37-43 | a kid is in the map exactly when some entry stores it, and it maps to the key of the last such entry |
| `KeySource.JwksKeysRaisePrefix` | decode_jwt.py:37-38 | one raising entry makes the whole loop raise, whatever comes before or after |
| `KeySource.AllGoodEntriesKept` | decode_jwt.py:37-43 | a list of dicts never raises, and every entry that converts and has a hashable kid is in the map |
| `KeySource.MetaKeys` | decode_jwt.py:50-60 | the meta map has at most the `default` key, holding the raw public key; a failed request, an error status, a non-JSON body or an object without `hooks` gives `{}` |
| `KeySource.MetaDefaultKey` | decode_jwt.py:55-56 | with `hooks` a dict, `default` is present exactly when `hooks` has `public_key`, and holds that value |
| `KeySource.PublicKeys` | decode_jwt.py:13-60 | every key in the answer is either a converted JWKS entry under its own `kid` or the raw meta key under `default`, and JWKS keys appear only for an Actions issuer |
| `KeySource.GetGithubPublicKeys` | decode_jwt.py:13-60 | the loop builds exactly the map of `PublicKeys`: skipping failed entries and stopping at a raising one |
| `KeySource.MetaOnlyWithoutHint` | decode_jwt.py:24-60 | without an Actions issuer, the answer is the meta tier's, whatever the JWKS endpoint says |
| `KeySource.JwksAnswerIsFinal` | decode_jwt.py:36-45 | when the JWKS document has a `keys` list, its map is the answer, empty or not, whatever the meta endpoint says |
| `KeySource.JwksFallsThrough` | decode_jwt.py:28-47 | a failed request, an error status, a non-JSON body or a document without `keys` falls through to the meta tier |
| `GithubToken.HeaderSegment` | decode_jwt.py:76 | the header segment is the longest prefix without `.`, ending at the first `.` |
| `GithubToken.HeaderSegmentOf` | decode_jwt.py:76 | the first segment of `seg.rest` is `seg` whenever `seg` holds no dot |
| `GithubToken.DecodeHeaderOfEncodedToken` | decode_jwt.py:76-79 | a token whose first segment is the unpadded base64url of some bytes has those bytes, parsed, as its header, whatever follows the first dot |
| `GithubToken.DecodeJwt` | decode_jwt.py:62-108 | with signature checking, an owner id is reported exactly when the header's kid (or `default`) names a meta key and the first option set passes with it, and it is then the token's `owner_id` |
| `GithubToken.PreSignature` | decode_jwt.py:221-253 | a token reaches the signature attempts only with claims, a dict header asking for RS256, a truthy trusted issuer and a truthy hashable kid, and then with the key its issuer's map files under that kid |
| `GithubToken.Verified` | decode_jwt.py:211-278 | a token is accepted exactly when it passes every check before the signature and some option set passes after only `InvalidTokenError`s |
| `GithubToken.FirstPassIff` | decode_jwt.py:268-275 | the loop accepts exactly when some attempt passes and every earlier one raised `InvalidTokenError` |
| `GithubToken.VerifyGithubJwt` | decode_jwt.py:211-278 | the result is `Verified`: every check before the signature passes, and some option set passes after only `InvalidTokenError`s |
| `GithubToken.AcceptedTokensPassedEveryGate` | decode_jwt.py:221-253 | an accepted token has claims, a dict header with RS256, a truthy trusted issuer, a truthy hashable kid in the key map, and a passing attempt with that kid's key |
| `GithubToken.GatePasses` | decode_jwt.py:221-253 | conversely, a token passing every check reaches the signature attempts with the key filed under its kid |
| `GithubToken.WrongAlgorithmRejected` | decode_jwt.py:232-233 | a header whose `alg` is not RS256 is rejected before the issuer, the kid or the keys are looked at |
| `GithubToken.UntrustedIssuerRejected` | decode_jwt.py:236-240 | an issuer naming neither `github.com` nor the Actions host is rejected |
| `GithubToken.MissingKidRejected` | decode_jwt.py:243-245 | a trusted token without a truthy kid is rejected before any key is fetched |
| `GithubToken.ExpiryIgnoredByFirstPolicy` | decode_jwt.py:258 | a token passing the first option set (no expiry and no audience check) is accepted |
| `GithubToken.AllPoliciesFailRejected` | decode_jwt.py:268-275 | if no option set passes, the token is rejected |
| `GithubToken.OtherErrorStopsTheLoop` | decode_jwt.py:268-278 | an exception other than `InvalidTokenError` rejects, even if a later option set would pass |
| `GithubToken.LaterPoliciesRedundant` | decode_jwt.py:256-275 | when passing a stricter option set implies passing a laxer one, acceptance is decided by the first option set alone |
| `GithubToken.MetaKeyNeedsDefaultKid` | decode_jwt.py:248-250 | an accepted token with a non-Actions string issuer has kid `default` |
| `GithubToken.DecodeJwtIgnoresJwks` | decode_jwt.py:85 | with signature checking, the JWKS endpoint never affects the result |
| `GithubToken.DecodeJwtKidLookup` | decode_jwt.py:82-87 | a header without `kid` looks up `default`; a kid missing from the map gives None; a passing signature under the looked-up key gives the `owner_id` claim, whether the header names its kid or not |
| `GithubToken.OrgLookupId` | decode_jwt.py:195-202 | an id is looked up only for a string owner id starting with `O_` that decodes to that id, and it is positive and below 2^32 |
| `GithubToken.LoginOf` | decode_jwt.py:206 | a name is reported only from a dict answer holding `login`, and it is that field |
| `GithubToken.FetchGithubOrgInfo` | decode_jwt.py:151-181 | an answer is only ever the body of a 200 response, and a 200 response's parsed body is always the answer |
| `GithubToken.OrgNameFromJwt` | decode_jwt.py:183-209 | without a lookup id the name is None; any name reported is the `login` field of a 200 JSON-object answer for the looked-up id |
| `GithubToken.NoLookupWithoutOrgOwner` | decode_jwt.py:195-197 | an owner id that is missing, empty, not a string or not `O_`-prefixed gives no lookup and no name |
| `GithubToken.NoLookupForUndecodableId` | decode_jwt.py:200-202 | an `O_` owner id that does not decode, or decodes to 0, gives no lookup and no name |
| `GithubToken.NameIndependentOfLookupWhenSkipped` | decode_jwt.py:196-202 | when no lookup happens, the REST API's answers do not matter |
| `GithubToken.FailedLookupGivesNone` | decode_jwt.py:151-181 | a failed request, a status other than 200, an unparsable body, or an answer without `login` gives no name |
| `GithubToken.OrgOwnerLookup` | decode_jwt.py:195-206 | an `O_` owner id decoding to a positive id is looked up under exactly that id |
| `GithubToken.LoginOfRecord` | decode_jwt.py:206 | a dict answer with `login` yields that login |
| `GithubToken.OrgNameOfOwner` | decode_jwt.py:183-209 | the name reported for such an owner id is the `login` of the REST record for its id |
| `GithubToken.SingleJwksKey` | decode_jwt.py:24-45 | an Actions issuer and a one-entry JWKS list with a usable key give a map with that key alone |
| `GithubToken.GetOrgNameAndVerifyFromToken` | decode_jwt.py:280-297 | an unverified token gives None; a verified one gives the organization name when it is truthy, else None |
| `GithubToken.EndToEnd` | decode_jwt.py:280-297 | an Actions token signed with the one JWKS key and owned by an organization verifies, and its name is the organization's `login` |

## Left out

- Printing and logging: every `print` of the source is left out, and so is the `__main__` command-line entry point.
- Network access and timeouts: each endpoint's answer is an input, either `NetFail` (any `RequestException`, including a timeout) or a status with an optional parsed JSON body.
- A response body that is not JSON is `body == None`. It is treated as a `RequestException`, because `requests` raises its `JSONDecodeError`, a subclass of that exception.
- GithubToken.DecodeJwt: after a passing signature check, the payload `jwt.decode` returns is taken to be the same one the unverified decode (`unverifiedClaims`) gives for that token.
- Base64.Scan: its own contract only states that the output grows. What it computes is stated by `LenientAgreesWithReference`, `JunkIgnored` and `TrailingDataIgnored`.
- PyJWT is not modelled. Signature checking, RSA, the `exp` and `aud` checks and the three-segment check are all part of the oracle `attempt`, which reports `Pass`, `InvalidToken` or another exception. `jwt.decode` without verification is the oracle `unverifiedClaims`.
- `PyJWK.from_dict` is the oracle `canConvert`.
- `json.loads` is the oracle `parseJson`.
- Python's `str()` of a non-string issuer is the oracle `strOf`.
- The REST API's answer for an organization id is an input, `orgApi`.
- JSON numbers are integers: floating-point values are not modelled.
- Python's `True == 1` equality is not modelled. Dictionary keys `True` and `1` therefore stay distinct in the key map.
- `KeySource.Iterated`: iterating a dict visits its keys. Those keys are strings, so the loop always skips them. The model visits nothing instead, which builds the same map.
- `Base64.B64Decode`: its own contract only states the non-ASCII refusal. What it computes is stated by `LenientAgreesWithReference`, `JunkIgnored` and `TrailingDataIgnored`, not by one closed form for every input.
- Other files of the repository (charts, configuration, image handling, the web entry point and tests) are not part of this model.
