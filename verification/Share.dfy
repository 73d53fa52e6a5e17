/**
  `share_secret`: seal the text, file a new row under the supplied id and
  answer with the link. The id generator, the clock and the cipher are
  parameters.
*/
module Share {
  import opened Wrappers
  import opened Models
  import opened AppErrors
  import opened Utils

  const DefaultMaxViews: i32 := 1
  const SecretUrlPrefix: string := "http://localhost:3000/secret/"

  /** The JSON answer `{ id, url, expires_at, max_views }`. */
  datatype ShareResponse = ShareResponse(id: string, url: string, expiresAt: int, maxViews: i32)

  /** The link under which the frontend redeems `id`. */
  function SecretUrl(id: string): (url: string)
    ensures |url| == |SecretUrlPrefix| + |id|
    ensures url[..|SecretUrlPrefix|] == SecretUrlPrefix && url[|SecretUrlPrefix|..] == id
  {
    SecretUrlPrefix + id
  }

  /** Encryption and both base64 decodings succeed on `text`. */
  predicate Sealable(env: Services, text: string) {
    && env.encrypt(text).Success?
    && env.decodeBase64(env.encrypt(text).value.0).Success?
    && env.decodeBase64(env.encrypt(text).value.1).Success?
  }

  /**
    `share_secret` with `newId` from the id generator and `now` from the
    clock. No field is validated: an empty secret, zero or negative
    `max_views` and negative minutes are all stored. Any failure is
    Internal and leaves the store as it was.
  */
  function ShareSecret(store: Store, now: int, newId: string, req: ShareRequest, env: Services)
    : (r: Result<(Store, ShareResponse), AppError>)
    ensures r.Success? <==> Sealable(env, req.secret) && newId !in store
    ensures r.Failure? ==> r.error.Internal?
    ensures env.encrypt(req.secret).Failure? ==> r == Failure(Internal(env.encrypt(req.secret).error))
    ensures Sealable(env, req.secret) && newId in store ==> r == Failure(Internal(env.duplicateIdError))
    ensures r.Success? ==>
      var (after, resp) := r.value;
      && after.Keys == store.Keys + {newId}
      && |after| == |store| + 1
      && (forall k :: k in store ==> after[k] == store[k])
      && after[newId].id == newId
      && after[newId].viewCount == 0
      && after[newId].createdAt == now
      && after[newId].maxViews == resp.maxViews == req.maxViews.GetOr(DefaultMaxViews)
      && after[newId].expiresAt == resp.expiresAt == CalculateExpiry(now, req.expireMinutes)
      && resp.id == newId
      && resp.url == SecretUrl(newId)
  {
    var expiresAt := CalculateExpiry(now, req.expireMinutes);
    match env.encrypt(req.secret)
    case Failure(e) => Failure(Internal(e))
    case Success((ciphertextText, nonceText)) =>
      match env.decodeBase64(ciphertextText)
      case Failure(e) => Failure(Internal(e))
      case Success(ciphertext) =>
        match env.decodeBase64(nonceText)
        case Failure(e) => Failure(Internal(e))
        case Success(nonce) =>
          var maxViews := req.maxViews.GetOr(DefaultMaxViews);
          // view_count and created_at are column defaults: 0 and the insert time
          var row := Secret(newId, ciphertext, nonce, expiresAt, maxViews, 0, now);
          if newId in store then Failure(Internal(env.duplicateIdError))
          else Success((store[newId := row], ShareResponse(newId, SecretUrl(newId), expiresAt, maxViews)))
  }

  /** Sharing keeps every row filed under its own id. */
  lemma ShareKeepsStoreKeyed(store: Store, now: int, newId: string, req: ShareRequest, env: Services)
    requires Keyed(store)
    ensures var r := ShareSecret(store, now, newId, req, env);
      r.Success? ==> Keyed(r.value.0)
  {
  }
}
