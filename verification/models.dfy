/**
  The persisted shop record (models.py) and the store of all shops.

  `shop_id` is the primary key, so the store is a map from shop id to record,
  and each record repeats its own key. `shop_url` and `shop_secret` are
  required; the platform version, the API credentials and the confirmation
  time may be absent.
*/
module Models {
  import opened Wrappers

  /** A point in time (`datetime.now()`), supplied by the caller. */
  type Instant = int

  datatype Shop = Shop(
    shopId: string,
    shopUrl: string,
    shopSecret: string,
    swVersion: Option<string>,
    apiKey: Option<string>,
    secretKey: Option<string>,
    confirmedAt: Option<Instant>)

  /** The shops table, keyed by `shop_id`. */
  type Store = map<string, Shop>

  /** Where a shop stands in the handshake. */
  datatype Phase = Unregistered | Registered | Confirmed

  /** The phase of `id`: no row, a row without a confirmation time, or a row with one. */
  function PhaseOf(store: Store, id: string): Phase
  {
    if id !in store then Unregistered
    else if store[id].confirmedAt.None? then Registered
    else Confirmed
  }

  /** The API key, the secret key and the confirmation time are present together or not at all. */
  predicate CredentialsTogether(shop: Shop)
  {
    && shop.apiKey.Some? == shop.confirmedAt.Some?
    && shop.secretKey.Some? == shop.confirmedAt.Some?
  }

  /** Every row is stored under its own key and carries credentials only once confirmed. */
  predicate Valid(store: Store)
  {
    forall id :: id in store ==> store[id].shopId == id && CredentialsTogether(store[id])
  }

  /** `store` and `store'` agree on every shop other than `id`, and `store'` has no new shop but `id`. */
  predicate OthersUnchanged(store: Store, store': Store, id: string)
  {
    && store'.Keys == store.Keys + {id}
    && forall other :: other in store && other != id ==> other in store' && store'[other] == store[other]
  }
}
