/**
  `cleanup_expired_records`: one `DELETE ... WHERE expires_at < now`, its
  row count logged, a database error logged and swallowed.
*/
module Cleanup {
  import opened Wrappers
  import opened Models
  import opened AppErrors
  import opened Retrieve

  /** What the job prints. */
  datatype CleanupLog = Deleted(count: nat) | DeleteFailed(reason: string)

  /** The ids the sweep at `now` removes: rows whose expiry lies strictly before `now`. */
  function ExpiredIds(store: Store, now: int): set<string> {
    set k | k in store && store[k].expiresAt < now
  }

  /** The rows that survive a sweep at `now`, unchanged. */
  function Sweep(store: Store, now: int): (after: Store)
    ensures after.Keys == store.Keys - ExpiredIds(store, now)
    ensures forall k :: k in after ==> after[k] == store[k]
  {
    map k | k in store && !(store[k].expiresAt < now) :: store[k]
  }

  /**
    The job at `now`; `dbError` is the error the DELETE raises, if any. The
    logged count is the number of rows removed, which is the number of
    expired rows; a failing DELETE leaves every row in place.
  */
  function CleanupExpiredRecords(store: Store, now: int, dbError: Option<string>): (r: (Store, CleanupLog))
    ensures dbError.Some? ==> r == (store, DeleteFailed(dbError.value))
    ensures dbError.None? ==>
      && (forall k :: k in r.0 <==> k in store && store[k].expiresAt >= now)
      && (forall k :: k in r.0 ==> r.0[k] == store[k])
      && r.1 == Deleted(|ExpiredIds(store, now)|)
      && r.1.count == |store| - |r.0|
  {
    match dbError
    case Some(e) => (store, DeleteFailed(e))
    case None =>
      var after := Sweep(store, now);
      var expired := ExpiredIds(store, now);
      assert store.Keys == after.Keys + expired;
      assert after.Keys !! expired;
      (after, Deleted(|store| - |after|))
  }

  /**
    Every row the sweep removes is one `get_secret` would reject at the same
    instant (and delete), and the rows it keeps are exactly those not yet
    expired: both use the same strict comparison.
  */
  lemma SweptRowsAreRejectedByReads(store: Store, now: int, id: string, env: Services)
    requires id in store
    ensures id in ExpiredIds(store, now) <==> now > store[id].expiresAt
    ensures id in ExpiredIds(store, now) ==>
      GetSecret(store, now, id, env) == Retrieval(store - {id}, Failure(NotFound))
  {
  }

  /** A second sweep at the same instant finds nothing. */
  lemma {:induction false} CleanupIsIdempotent(store: Store, now: int)
    ensures var once := CleanupExpiredRecords(store, now, None).0;
      CleanupExpiredRecords(once, now, None) == (once, Deleted(0))
  {
    var once := CleanupExpiredRecords(store, now, None).0;
    assert ExpiredIds(once, now) == {};
    assert Sweep(once, now) == once;
  }

  /**
    Sweeping is invisible to reads at the same instant: a read answers the
    same with or without a sweep first, and sweeping before or after the
    read leaves the same rows.
  */
  lemma {:induction false} CleanupCommutesWithReads(store: Store, now: int, id: string, env: Services)
    ensures GetSecret(Sweep(store, now), now, id, env).result == GetSecret(store, now, id, env).result
    ensures GetSecret(Sweep(store, now), now, id, env).store == Sweep(GetSecret(store, now, id, env).store, now)
  {
    var swept := Sweep(store, now);
    if id !in store {
      assert id !in swept;
    } else if store[id].expiresAt < now {
      assert id !in swept;
      assert swept == Sweep(store - {id}, now);
    } else {
      assert id in swept && swept[id] == store[id];
      if !Servable(store[id], now) {
        assert Sweep(store - {id}, now) == swept - {id};
      } else if Decrypt(env, store[id]).Success? {
        ReadAfterSweepCountsTheSameView(store, now, id, env);
      }
    }
  }

  /** A counted view survives the sweep, since the row it touches is not expired. */
  lemma ReadAfterSweepCountsTheSameView(store: Store, now: int, id: string, env: Services)
    requires id in store && Servable(store[id], now) && Decrypt(env, store[id]).Success?
    ensures Sweep(store[id := CountView(store[id])], now) == Sweep(store, now)[id := CountView(store[id])]
  {
  }
}
