/**
  `get_secret`: look the row up, reject and delete it when it has expired or
  used up its views, otherwise decrypt it and count the view.
*/
module Retrieve {
  import opened Wrappers
  import opened Models
  import opened AppErrors

  /** The JSON answer `{ secret, remaining_views }`. */
  datatype Revealed = Revealed(secret: string, remainingViews: int)

  /** The store after the request, and its answer. */
  datatype Retrieval = Retrieval(store: Store, result: Result<Revealed, AppError>)

  /** The plaintext of a row: its bytes re-encoded as base64 and handed to the cipher. */
  function Decrypt(env: Services, row: Secret): Result<string, string> {
    env.decrypt(env.encodeBase64(row.ciphertext), env.encodeBase64(row.nonce))
  }

  /** The row after one more view; it fits `i32` because it stays at most `max_views`. */
  function CountView(row: Secret): (after: Secret)
    requires row.viewCount < row.maxViews
    ensures after.viewCount == row.viewCount + 1 <= row.maxViews
    ensures after.(viewCount := row.viewCount) == row
  {
    row.(viewCount := row.viewCount + 1)
  }

  /**
    `get_secret` at instant `now`. Expiry is checked first and strictly
    (`now > expires_at`), then the view limit; either rejection deletes the
    row and answers NotFound. Decryption comes before the view is counted, so
    its failure answers Internal and changes nothing.
  */
  function GetSecret(store: Store, now: int, id: string, env: Services): (r: Retrieval)
    ensures id !in store ==> r == Retrieval(store, Failure(NotFound))
    ensures id in store && now > store[id].expiresAt ==> r == Retrieval(store - {id}, Failure(NotFound))
    ensures id in store && store[id].viewCount >= store[id].maxViews ==> r == Retrieval(store - {id}, Failure(NotFound))
    ensures id in store && Servable(store[id], now) && Decrypt(env, store[id]).Failure? ==>
      r == Retrieval(store, Failure(Internal(Decrypt(env, store[id]).error)))
    ensures r.result.Success? <==> id in store && Servable(store[id], now) && Decrypt(env, store[id]).Success?
    ensures r.result.Success? ==>
      && r.store.Keys == store.Keys
      && r.store[id].viewCount == store[id].viewCount + 1
      && r.store[id].(viewCount := store[id].viewCount) == store[id]
      && r.result.value.secret == Decrypt(env, store[id]).value
      && r.result.value.remainingViews == store[id].maxViews - r.store[id].viewCount
      && r.result.value.remainingViews >= 0
    ensures forall k :: k in store && k != id ==> k in r.store && r.store[k] == store[k]
    ensures r.store.Keys <= store.Keys
  {
    if id !in store then Retrieval(store, Failure(NotFound))
    else
      var row := store[id];
      if now > row.expiresAt then Retrieval(store - {id}, Failure(NotFound))
      else if row.viewCount >= row.maxViews then Retrieval(store - {id}, Failure(NotFound))
      else
        match Decrypt(env, row)
        case Failure(e) => Retrieval(store, Failure(Internal(e)))
        case Success(plaintext) =>
          var remaining := row.maxViews - (row.viewCount + 1);
          Retrieval(store[id := CountView(row)], Success(Revealed(plaintext, remaining)))
  }

  /** At `now == expires_at` the row is still served: the expiry check is strict. */
  lemma ServedAtExpiryInstant(store: Store, id: string, env: Services)
    requires id in store && store[id].viewCount < store[id].maxViews
    requires Decrypt(env, store[id]).Success?
    ensures GetSecret(store, store[id].expiresAt, id, env).result.Success?
  {
  }

  /** An expired row is rejected even with views left: expiry is checked first. */
  lemma ExpiredRejectedDespiteViewsLeft(store: Store, now: int, id: string, env: Services)
    requires id in store && now > store[id].expiresAt && store[id].viewCount < store[id].maxViews
    ensures GetSecret(store, now, id, env) == Retrieval(store - {id}, Failure(NotFound))
  {
  }

  /**
    For rows whose count never went below zero, as every row the service
    creates, `remaining_views` also fits `i32`: it lies below `max_views`.
  */
  lemma RemainingViewsFitI32(store: Store, now: int, id: string, env: Services)
    requires id in store && store[id].viewCount >= 0
    ensures var r := GetSecret(store, now, id, env);
      r.result.Success? ==> 0 <= r.result.value.remainingViews < store[id].maxViews
  {
  }

  /** A read keeps every row filed under its own id. */
  lemma GetKeepsStoreKeyed(store: Store, now: int, id: string, env: Services)
    requires Keyed(store)
    ensures Keyed(GetSecret(store, now, id, env).store)
  {
  }
}
