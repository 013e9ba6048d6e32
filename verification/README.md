# Shopware app-registration handshake, modelled in Dafny

This project models the core of a small Shopware app backend: the signature
checks that guard its endpoints (`utils.py`) and the registration handshake
over the table of shops (`main.py`, `models.py`).

- **Signatures.** A signature is the hex HMAC-SHA256 (section 2 of RFC 2104)
  of some text under a key. Three checks reduce a request to the exact text
  that was signed:
  - the raw query, with the signature in a header (registration);
  - the raw body, with the signature in a header (confirmation);
  - the raw query, with the signature carried as its own
    `shopware-shop-signature` parameter, which is cut out of the text first
    (connect).
- **Handshake.** Registration is signed with the app secret `mysecret`. It
  returns a proof, a fresh per-shop secret and the confirmation URL, and
  upserts the shop. Confirmation is signed with that per-shop secret and
  stores the shop's API key, secret key and confirmation time. Connect checks
  the embedded query signature under the per-shop secret and only reads the
  store.

## Layout

| file | module | what it holds |
|---|---|---|
| `wrappers.dfy` | `Wrappers` | `Option`, `Result` |
| `http.dfy` | `Http` | the request as the handlers see it, `HttpError`, and the framework's reading of query parameters |
| `removal.dfy` | `Removal` | the left-to-right removal of `&?token` from a string, and its properties |
| `signature.dfy` | `Signature` | `utils.py`: HMAC check, the three canonicalisations, cleaning examples |
| `models.dfy` | `Models` | `models.py`: the `Shop` record, the store `map<string, Shop>`, phases, the store invariant |
| `handshake.dfy` | `Handshake` | `main.py`: constants, `Registration`, `Confirmation`, `Connect`, and lemmas about them |
| `scenario.dfy` | `Scenario` | the signed-query round trip and the end-to-end handshake |

## Modelling decisions

- The keyed hash is a parameter `h: HmacFn`, a deterministic function from
  (key, data) to a digest string. Nothing is assumed about it beyond
  determinism: no collision resistance and no hex shape.
- `hmac.compare_digest` is plain equality; its constant-time behaviour is not
  modelled.
- Text is `string` throughout; the UTF-8 encoding of keys, queries and bodies
  is not modelled.
- `re.sub(r"(&?shopware-shop-signature=" + re.escape(sig) + ")", "", q)` is
  `Removal.Remove`. It scans left to right. At each position it drops
  `"&" + token` if that starts there, else drops `token` if that starts
  there, else keeps one character. Here `token` is
  `shopware-shop-signature=<sig>`. The `&?` is greedy and the token is never
  empty, so this is the regular expression's behaviour.
- Query parameters (`request.query_params`) are read the way the web
  framework does it:
  - the query is split on `&` and empty fields are skipped;
  - each field is cut at its first `=`; a field without `=` has the empty
    value;
  - the last value of a repeated name wins.

  Percent-decoding is not modelled, so the signature is the literal text
  found in the raw query.
- Registration's three required query parameters (`Query(...)`) are bound
  by the framework before the handler runs. A missing one gives a 422, before
  any signature check. The body of that 422 is not modelled.
- A handler returns an `Outcome`: the reply (a value or an `HttpError`) and
  the store as committed. On an error the store is the input store, because
  the source raises before `db.commit()`.
- `db.merge(Shop(shop_id, shop_url, shop_secret, sw_version))` overwrites
  `shop_url`, `shop_secret` and `sw_version`. It sets `sw_version` even to
  nothing when the `sw-version` header is absent. The columns the new object
  leaves unset (`api_key`, `secret_key`, `confirmed_at`) keep the values of
  an existing row.
- The fresh secret (`secrets.token_urlsafe(64)`) and the current time
  (`datetime.now()`) are parameters.
- Connect returns the shop whose page would be rendered. It has no store
  output, so by its type it cannot change the store.

## Behaviour worth noting

- Re-registering a confirmed shop keeps it confirmed.
  - The code's merge keeps `confirmed_at`, `api_key` and `secret_key`.
  - It replaces the secret, so the old credentials stay stored next to a
    new secret.
- Connect does not look at `confirmed_at`. A registered but unconfirmed shop
  can connect.
- Connect checks only that `shop-url` is present and non-empty. It does not
  compare it with the stored URL.
- An empty `shopware-shop-signature` parameter is rejected like an absent
  one, with 400 "Missing query param".
- An unknown shop gives 400 at confirmation and 404 at connect.
- The two header checks word their 400 differently:
  "Missing header: <name>" and "Missing header <name>".
- The embedded check removes every literal `shopware-shop-signature=<sig>`
  from the raw query, wherever it occurs, also inside another parameter's
  value. The digest is then taken over text that differs from what was signed.

## Model

| member | source | states |
|---|---|---|
| `Http.Lookup` | main.py:120-121 | the value read for a name is absent exactly when no parameter has that name, and otherwise is the value of the last parameter with that name |
| `Http.QueryParamsEncode` | utils.py:38-39 | parameters written as `name=value` pairs joined with `&` are read back unchanged, when names hold no `&` or `=` and values no `&` |
| `Removal.Remove` | utils.py:45-46 | the cleaned text is never longer than the raw text |
| `Removal.RemoveChangesIffContains` | utils.py:45-46 | the cleaned text is strictly shorter when the token occurs in the raw text, and equal to the raw text exactly when it does not occur |
| `Removal.RemoveIsSubsequence` | utils.py:45-46 | removal only deletes: the kept characters are those of the raw text, in their order |
| `Removal.RemoveConcat` | utils.py:44-46 | with an `&`-free token, no match straddles a `&` boundary, so removing from a query is removing from each `&`-started part |
| `Removal.RemoveAfterPrefix` | utils.py:45-46 | an `&` followed by the token, between two token-free pieces the second of which starts a new parameter, is removed together with its `&` and nothing else changes |
| `Signature.VerifyHmac` | utils.py:11-15 | the check passes exactly when the received signature equals the key's digest of the data, and otherwise fails with 401 "Invalid signature" |
| `Signature.VerifyGenerated` | utils.py:6-15 | a signature generated with a key always passes the check with that key and data |
| `Signature.VerifyUnique` | utils.py:11-15 | at most one signature passes for given data and key |
| `Signature.VerifyHeaderSignature` | utils.py:18-25 | a missing header is a 400 with no digest computed; otherwise it passes exactly when the header equals the digest of the raw query, unchanged, and fails with 401 otherwise |
| `Signature.VerifyBodySignature` | utils.py:56-67 | a missing header is a 400; otherwise it passes exactly when the header equals the digest of the raw body, unchanged, and fails with 401 otherwise |
| `Signature.StripLeadingAmp` | utils.py:48-50 | the result is the text itself or the text with one leading `&` removed, and it differs from the text exactly when the text starts with `&` |
| `Signature.Clean` | utils.py:43-50 | the cleaned query is no longer than the raw query and strictly shorter when the signature pair occurs in it; when it does not, only one leading `&` can be lost; in every case the result is the removal's output with at most one leading `&` stripped, and one is stripped only if the removal's output starts with `&` |
| `Signature.VerifyQueryParamSignature` | utils.py:28-53 | an absent or empty signature parameter is a 400 before any cleaning or digest; otherwise it passes exactly when the signature equals the digest of the cleaned query, and fails with 401 otherwise |
| `Signature.CleanIsSubsequence` | utils.py:45-50 | the cleaned query keeps the remaining characters of the raw query in their order |
| `Signature.FoundSignatureIsExcised` | utils.py:39-46 | the signature the parameter reader finds occurs literally as `shopware-shop-signature=<sig>` in the raw query, so the cleaning always cuts something out |
| `Signature.CleanAfterPrefix` | utils.py:44-50 | a signature pair after other parameters is cut out with its `&`, leaving exactly the parameters before and after it |
| `Signature.CleanAtFront` | utils.py:44-50 | a signature pair at the start is cut out and the `&` that followed it is stripped |
| `Signature.CleanExampleMiddle` | utils.py:45-50 | `a=1&shopware-shop-signature=S&b=2` is cleaned to `a=1&b=2` for every signature `S` without `&` |
| `Signature.CleanExampleFirst` | utils.py:45-50 | `shopware-shop-signature=S&b=2` is cleaned to `b=2` for every signature `S` |
| `Signature.CleanExampleLast` | utils.py:45-50 | `a=1&shopware-shop-signature=S` is cleaned to `a=1` for every signature `S` without `&` |
| `Signature.CleanExampleOnly` | utils.py:45-50 | `shopware-shop-signature=S` is cleaned to the empty query for every signature `S` |
| `Handshake.Upsert` | main.py:66-73 | only the upserted shop's entry changes; it gets the given url, secret and version; an existing row keeps its API key, secret key and confirmation time; a new row has none of them |
| `Handshake.Registration` | main.py:42-80 | missing parameters are a 422, then a missing header a 400, then a wrong signature over the raw query under the app secret a 401; the store changes only on success. On success the shop is stored under its id with the given url, version and fresh secret, an existing row keeps its API key, secret key and confirmation time while a new row has none of them, other shops are untouched, and the reply carries the proof `h(app secret, id ++ url ++ "MyExampleApp")`, the stored secret and the confirmation URL |
| `Handshake.Confirmation` | main.py:83-108 | an unknown shop is a 400 whatever the signature; the body is checked against the stored shop secret; the store changes only on success, and then only the shop's API key, secret key and confirmation time, all three together; the reply is status "success" with message "Shop <id> confirmed." |
| `Handshake.Connect` | main.py:111-134 | missing or empty `shop-id`/`shop-url` is a 400, then an unknown shop a 404, then the embedded signature under the shop's secret is checked and its error (400 for a missing or empty signature parameter, 401 for a wrong one) is passed on unchanged; on success the page shows the stored shop |
| `Handshake.RegistrationPreservesValid` | main.py:66-73 | after registration every shop is still stored under its own id, and its credentials and confirmation time are still all present or all absent |
| `Handshake.ConfirmationPreservesValid` | main.py:103-106 | the same two invariants hold after confirmation |
| `Handshake.RegistrationPhase` | main.py:66-73 | after a successful registration the shop is Registered, or still Confirmed if it was Confirmed before |
| `Handshake.ConfirmationPhase` | main.py:95-106 | confirmation of an unregistered shop fails; a successful one leaves the shop Confirmed |
| `Handshake.ReRegistrationRotatesSecret` | main.py:95-100 | after two registrations of one shop, confirmation passes exactly for the second secret's signature; a body signed with the first secret fails with 401 when the two digests differ |
| `Handshake.ConnectIgnoresConfirmation` | main.py:127-132 | whether connect succeeds does not depend on the shop's API key, secret key or confirmation time |
| `Scenario.SignedQueryRoundTrip` | utils.py:43-53 | for a signature without `&`, and a query of well-formed parameters in which `shopware-shop-signature=<sig>` does not already occur, appending `&shopware-shop-signature=<sig>` and cleaning gives back exactly the original query text, and the parameter reader finds that signature |
| `Scenario.CleanCutsCopyInsideValue` | utils.py:45-46 | every literal copy of the pair is cut, also one inside another parameter's value: the signed query `y=shopware-shop-signature=<sig>` is cleaned to `y=`, not to the query that was signed |
| `Scenario.ConnectWithSignedQuery` | main.py:120-132 | connect with the shop's parameters and the embedded signature made with some key shows the shop when that key's digest equals the shop secret's, and fails with 401 otherwise |
| `Scenario.HandshakeEndToEnd` | main.py:42-134 | registration signed with the app secret issues the secret; a confirmation signed with it stores the credentials and the time; a connect signed with it then shows the shop; the same connect signed with the app secret fails with 401 when the digests differ |

## Left out

- `api_deck_shopware_test.py`: a wrapper over an external SDK (network calls, pagination); no local logic.
- `database.py`: database engine and session setup; the store is a map.
- `provide_tax` (main.py:137-165): returns a constant payload.
- Routing, the JSON parsing of the confirmation body, the HTML template and the server launch. The parsed confirmation body is a parameter, independent of the raw body text.
- The body's `shopUrl` and `timestamp` and registration's `timestamp` are read but not used by the code. No freshness window is modelled because none is checked.
- SHA-256 and HMAC internals, and the hex encoding of digests: the keyed hash is a parameter.
- The constant-time comparison, modelled as equality.
- Signature.VerifyHmac: the comparison of two text values raises a `TypeError` when either holds a non-ASCII character, and nothing catches it, so such a request ends in a 500 (utils.py:14). The model answers 401 "Invalid signature" for every mismatch instead, because the keyed hash is a parameter with no ASCII guarantee and the error is a crash rather than a designed answer. The same 401 is passed on by `Signature.VerifyHeaderSignature`, `Signature.VerifyBodySignature`, `Signature.VerifyQueryParamSignature`, `Handshake.Registration`, `Handshake.Confirmation` and `Handshake.Connect`.
- Randomness of the fresh secret and the clock: both are parameters.
- Percent-decoding of query parameters, and the difference between the raw query bytes read by the header check and the decoded URL query read by the embedded check: both are the same literal text here.
- Case-insensitive header names: headers are looked up by their exact lower-case name.
- Repeated request headers: headers are a map with one value per name, while the framework's header lookup returns the first of several values sent under one name.
- The `+`-to-space conversion the framework's query reader applies before percent-decoding: values are read as literal text.
- Concurrent registrations of the same shop racing on the merge: each handler is one atomic step.
- `Scenario.SignedQueryRoundTrip`, `Scenario.HandshakeEndToEnd`, `Scenario.ConnectWithSignedQuery`: assume the signature is non-empty, holds no `&`, and that `shopware-shop-signature=<sig>` does not already occur in the signed query. Nothing is assumed about the digest's shape, so these are stated as hypotheses.
