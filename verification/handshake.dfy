/**
  The app-registration handshake (main.py) as pure transitions over the shop
  store.

  Registration is signed by the platform with the app secret; it answers with
  a proof, a fresh per-shop secret and the confirmation endpoint, and upserts
  the shop. Confirmation is signed over its raw body with that per-shop secret
  and stores the shop's API credentials. Connect is signed with an embedded
  query parameter under the per-shop secret and reads the store only.

  A handler either answers or raises an `HttpError`; the store it hands back
  is the one committed, which is the input store whenever it raises. The
  fresh secret (`secrets.token_urlsafe`) and the current time are parameters.
*/
module Handshake {
  import opened Wrappers
  import opened Http
  import opened Signature
  import opened Models

  const APP_SECRET := "mysecret"
  const APP_NAME := "MyExampleApp"
  const CONFIRMATION_URL := "http://host.docker.internal:8000/confirmation"

  const APP_SIGNATURE_HEADER := "shopware-app-signature"
  const SHOP_SIGNATURE_HEADER := "shopware-shop-signature"
  const VERSION_HEADER := "sw-version"

  const SHOP_ID_PARAM := "shop-id"
  const SHOP_URL_PARAM := "shop-url"
  const TIMESTAMP_PARAM := "timestamp"

  /** The framework's rejection of a request that lacks a required query parameter. */
  const FIELD_REQUIRED := HttpError(422, "Field required")
  const UNKNOWN_SHOP := HttpError(400, "Unknown shopId\U{2014}register first.")
  const MISSING_SHOP_PARAMS := HttpError(400, "Missing shop-id or shop-url")

  function NoShopFound(id: string): HttpError
  {
    HttpError(404, "No shop found with id " + id)
  }

  /** A handler's reply together with the store as committed afterwards. */
  datatype Outcome<T> = Outcome(reply: Result<T, HttpError>, store: Store)

  datatype RegistrationReply = RegistrationReply(proof: string, secret: string, confirmationUrl: string)

  /** The parsed confirmation body. */
  datatype ConfirmationRequest = ConfirmationRequest(
    shopId: string, shopUrl: string, apiKey: string, secretKey: string, timestamp: string)

  datatype ConfirmationReply = ConfirmationReply(status: string, message: string)

  /** The rendered connect page shows the shop's record. */
  datatype ConnectPage = ConnectPage(shop: Shop)

  /** The proof of this app's identity: the app secret's digest of id, url and app name, unseparated. */
  function Proof(h: HmacFn, shopId: string, shopUrl: string): string
  {
    GenerateHmac(h, shopId + shopUrl + APP_NAME, APP_SECRET)
  }

  /**
    `db.merge(Shop(shop_id, shop_url, shop_secret, sw_version))`: the url, the
    secret and the version (even when absent) are overwritten; the columns the
    new object leaves unset keep the stored values of an existing row, and are
    empty for a new one.
  */
  function Upsert(store: Store, id: string, url: string, secret: string, version: Option<string>): (s: Store)
    ensures OthersUnchanged(store, s, id)
    ensures s[id].shopId == id && s[id].shopUrl == url && s[id].shopSecret == secret && s[id].swVersion == version
    ensures id in store ==> && s[id].apiKey == store[id].apiKey
                            && s[id].secretKey == store[id].secretKey
                            && s[id].confirmedAt == store[id].confirmedAt
    ensures id !in store ==> s[id].apiKey.None? && s[id].secretKey.None? && s[id].confirmedAt.None?
  {
    if id in store then
      store[id := store[id].(shopId := id, shopUrl := url, shopSecret := secret, swVersion := version)]
    else
      store[id := Shop(id, url, secret, version, None, None, None)]
  }

  /** `true` when the registration request carries all three required query parameters. */
  predicate HasRegistrationParams(req: Request)
  {
    && QueryGet(req.rawQuery, SHOP_ID_PARAM).Some?
    && QueryGet(req.rawQuery, SHOP_URL_PARAM).Some?
    && QueryGet(req.rawQuery, TIMESTAMP_PARAM).Some?
  }

  /**
    `registration`: the app-secret signature over the raw query is checked
    before anything is written; on success the shop is upserted with the fresh
    secret, and the same secret is returned with the proof.
  */
  function Registration(h: HmacFn, store: Store, req: Request, freshSecret: string): (o: Outcome<RegistrationReply>)
    ensures o.reply.Failure? ==> o.store == store
    ensures !HasRegistrationParams(req) ==> o.reply == Failure(FIELD_REQUIRED)
    ensures HasRegistrationParams(req) && Header(req, APP_SIGNATURE_HEADER).None? ==>
              o.reply == Failure(MissingHeader(APP_SIGNATURE_HEADER))
    ensures o.reply.Success? <==>
              && HasRegistrationParams(req)
              && Header(req, APP_SIGNATURE_HEADER) == Some(h(APP_SECRET, req.rawQuery))
    ensures o.reply.Failure? && HasRegistrationParams(req) && Header(req, APP_SIGNATURE_HEADER).Some? ==>
              o.reply.error == INVALID_SIGNATURE
    ensures o.reply.Success? ==>
              var id := QueryGet(req.rawQuery, SHOP_ID_PARAM).value;
              var url := QueryGet(req.rawQuery, SHOP_URL_PARAM).value;
              && OthersUnchanged(store, o.store, id)
              && o.store[id].shopId == id
              && o.store[id].shopUrl == url
              && o.store[id].shopSecret == freshSecret
              && o.store[id].swVersion == Header(req, VERSION_HEADER)
              && (id in store ==> && o.store[id].apiKey == store[id].apiKey
                                  && o.store[id].secretKey == store[id].secretKey
                                  && o.store[id].confirmedAt == store[id].confirmedAt)
              && (id !in store ==> o.store[id].apiKey.None? && o.store[id].secretKey.None? && o.store[id].confirmedAt.None?)
              && o.reply.value.proof == h(APP_SECRET, id + url + APP_NAME)
              && o.reply.value.secret == o.store[id].shopSecret
              && o.reply.value.confirmationUrl == CONFIRMATION_URL
  {
    if !HasRegistrationParams(req) then Outcome(Failure(FIELD_REQUIRED), store)
    else
      var id := QueryGet(req.rawQuery, SHOP_ID_PARAM).value;
      var url := QueryGet(req.rawQuery, SHOP_URL_PARAM).value;
      match VerifyHeaderSignature(h, req, APP_SECRET, APP_SIGNATURE_HEADER)
      case Failure(e) => Outcome(Failure(e), store)
      case Success(_) =>
        var proof := Proof(h, id, url);
        var store' := Upsert(store, id, url, freshSecret, Header(req, VERSION_HEADER));
        Outcome(Success(RegistrationReply(proof, freshSecret, CONFIRMATION_URL)), store')
  }

  /**
    `confirmation`: an unknown shop is rejected before any signature check;
    otherwise the raw body must carry the shop's own secret's signature, and
    only then are the API key, the secret key and the confirmation time stored.
  */
  function Confirmation(h: HmacFn, store: Store, req: Request, data: ConfirmationRequest, now: Instant)
    : (o: Outcome<ConfirmationReply>)
    ensures o.reply.Failure? ==> o.store == store
    ensures data.shopId !in store ==> o.reply == Failure(UNKNOWN_SHOP)
    ensures data.shopId in store && Header(req, SHOP_SIGNATURE_HEADER).None? ==>
              o.reply == Failure(MissingBodyHeader(SHOP_SIGNATURE_HEADER))
    ensures o.reply.Success? <==>
              && data.shopId in store
              && Header(req, SHOP_SIGNATURE_HEADER) == Some(h(store[data.shopId].shopSecret, req.body))
    ensures o.reply.Failure? && data.shopId in store && Header(req, SHOP_SIGNATURE_HEADER).Some? ==>
              o.reply.error == INVALID_SIGNATURE
    ensures o.reply.Success? ==>
              var id := data.shopId;
              && OthersUnchanged(store, o.store, id)
              && o.store.Keys == store.Keys
              && o.store[id].shopId == store[id].shopId
              && o.store[id].shopUrl == store[id].shopUrl
              && o.store[id].shopSecret == store[id].shopSecret
              && o.store[id].swVersion == store[id].swVersion
              && o.store[id].apiKey == Some(data.apiKey)
              && o.store[id].secretKey == Some(data.secretKey)
              && o.store[id].confirmedAt == Some(now)
              && o.reply.value == ConfirmationReply("success", "Shop " + id + " confirmed.")
  {
    if data.shopId !in store then Outcome(Failure(UNKNOWN_SHOP), store)
    else
      var shop := store[data.shopId];
      match VerifyBodySignature(h, req, shop.shopSecret, SHOP_SIGNATURE_HEADER)
      case Failure(e) => Outcome(Failure(e), store)
      case Success(_) =>
        var confirmed := shop.(apiKey := Some(data.apiKey), secretKey := Some(data.secretKey), confirmedAt := Some(now));
        var reply := ConfirmationReply("success", "Shop " + data.shopId + " confirmed.");
        Outcome(Success(reply), store[data.shopId := confirmed])
  }

  /** `true` when the connect request names a shop id and a shop url, both non-empty. */
  predicate HasConnectParams(req: Request)
  {
    && QueryGet(req.rawQuery, SHOP_ID_PARAM).Some? && QueryGet(req.rawQuery, SHOP_ID_PARAM).value != []
    && QueryGet(req.rawQuery, SHOP_URL_PARAM).Some? && QueryGet(req.rawQuery, SHOP_URL_PARAM).value != []
  }

  /**
    `connect`: missing parameters, then an unknown shop, then the embedded
    signature under the shop's secret. It reads the store and never writes it,
    and does not look at whether the shop is confirmed.
  */
  function Connect(h: HmacFn, store: Store, req: Request): (r: Result<ConnectPage, HttpError>)
    ensures !HasConnectParams(req) ==> r == Failure(MISSING_SHOP_PARAMS)
    ensures HasConnectParams(req) && QueryGet(req.rawQuery, SHOP_ID_PARAM).value !in store ==>
              r == Failure(NoShopFound(QueryGet(req.rawQuery, SHOP_ID_PARAM).value))
    ensures r.Success? <==>
              && HasConnectParams(req)
              && QueryGet(req.rawQuery, SHOP_ID_PARAM).value in store
              && VerifyQueryParamSignature(h, req, store[QueryGet(req.rawQuery, SHOP_ID_PARAM).value].shopSecret).Success?
    ensures r.Success? ==> r.value.shop == store[QueryGet(req.rawQuery, SHOP_ID_PARAM).value]
    ensures HasConnectParams(req) && QueryGet(req.rawQuery, SHOP_ID_PARAM).value in store ==>
              var check := VerifyQueryParamSignature(h, req, store[QueryGet(req.rawQuery, SHOP_ID_PARAM).value].shopSecret);
              check.Failure? ==> r == Failure(check.error)
  {
    if !HasConnectParams(req) then Failure(MISSING_SHOP_PARAMS)
    else
      var id := QueryGet(req.rawQuery, SHOP_ID_PARAM).value;
      if id !in store then Failure(NoShopFound(id))
      else
        match VerifyQueryParamSignature(h, req, store[id].shopSecret)
        case Failure(e) => Failure(e)
        case Success(_) => Success(ConnectPage(store[id]))
  }

  /** Registration keeps every row under its own key and credentials together. */
  lemma RegistrationPreservesValid(h: HmacFn, store: Store, req: Request, freshSecret: string)
    requires Valid(store)
    ensures Valid(Registration(h, store, req, freshSecret).store)
  {
    var o := Registration(h, store, req, freshSecret);
    if o.reply.Success? {
      var id := QueryGet(req.rawQuery, SHOP_ID_PARAM).value;
      forall x | x in o.store
        ensures o.store[x].shopId == x && CredentialsTogether(o.store[x])
      {
        if x != id {
          assert o.store[x] == store[x];
        }
      }
    }
  }

  /** Confirmation keeps every row under its own key and sets the three credentials together. */
  lemma ConfirmationPreservesValid(h: HmacFn, store: Store, req: Request, data: ConfirmationRequest, now: Instant)
    requires Valid(store)
    ensures Valid(Confirmation(h, store, req, data, now).store)
  {
  }

  /**
    A successful registration leaves the shop Registered, or Confirmed if it
    already was: the confirmation time survives re-registration.
  */
  lemma RegistrationPhase(h: HmacFn, store: Store, req: Request, freshSecret: string)
    requires Registration(h, store, req, freshSecret).reply.Success?
    ensures var id := QueryGet(req.rawQuery, SHOP_ID_PARAM).value;
            PhaseOf(Registration(h, store, req, freshSecret).store, id)
              == if PhaseOf(store, id) == Confirmed then Confirmed else Registered
  {
  }

  /** Confirmation succeeds only for a registered shop, and leaves it Confirmed. */
  lemma ConfirmationPhase(h: HmacFn, store: Store, req: Request, data: ConfirmationRequest, now: Instant)
    ensures PhaseOf(store, data.shopId) == Unregistered ==> Confirmation(h, store, req, data, now).reply.Failure?
    ensures Confirmation(h, store, req, data, now).reply.Success? ==>
              PhaseOf(Confirmation(h, store, req, data, now).store, data.shopId) == Confirmed
  {
  }

  /**
    After two successful registrations of the same shop, confirmation is
    checked against the second secret only: a body signed with the first
    secret passes only if its digest happens to equal the second one's.
  */
  lemma ReRegistrationRotatesSecret(
    h: HmacFn, store: Store, reg1: Request, s1: string, reg2: Request, s2: string,
    req: Request, data: ConfirmationRequest, now: Instant)
    requires Registration(h, store, reg1, s1).reply.Success?
    requires Registration(h, Registration(h, store, reg1, s1).store, reg2, s2).reply.Success?
    requires QueryGet(reg1.rawQuery, SHOP_ID_PARAM) == QueryGet(reg2.rawQuery, SHOP_ID_PARAM) == Some(data.shopId)
    ensures var store2 := Registration(h, Registration(h, store, reg1, s1).store, reg2, s2).store;
            Confirmation(h, store2, req, data, now).reply.Success? <==>
              Header(req, SHOP_SIGNATURE_HEADER) == Some(h(s2, req.body))
    ensures var store2 := Registration(h, Registration(h, store, reg1, s1).store, reg2, s2).store;
            Header(req, SHOP_SIGNATURE_HEADER) == Some(h(s1, req.body)) && h(s1, req.body) != h(s2, req.body) ==>
              Confirmation(h, store2, req, data, now).reply == Failure(INVALID_SIGNATURE)
  {
  }

  /**
    Whether connect succeeds does not depend on the shop's API credentials or
    confirmation time: a registered but unconfirmed shop can connect.
  */
  lemma ConnectIgnoresConfirmation(
    h: HmacFn, store: Store, req: Request, id: string,
    apiKey: Option<string>, secretKey: Option<string>, at: Option<Instant>)
    requires id in store
    ensures var store' := store[id := store[id].(apiKey := apiKey, secretKey := secretKey, confirmedAt := at)];
            Connect(h, store', req).Success? <==> Connect(h, store, req).Success?
  {
  }
}
