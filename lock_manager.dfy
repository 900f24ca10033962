/** `DistributedLockManager` (src/main/java/com/cinema/movie/service/booking/DistributedLockManager.java):
    a per-screening lock kept in a key/value store. Acquiring is
    set-if-absent of a fresh token, releasing is a compare-and-delete script,
    and the guarded operation runs between the two. The store is modelled
    sequentially; a store error is a `fault` flag, the fresh UUID is the
    `token` parameter, and the 30-second expiry is the explicit `ExpireKey`. */
module Locking {
  import opened Base
  import opened Text

  const LockPrefix := "booking:lock:screening:"
  const LockTimeoutSeconds := 30
  const BusyMessage := "Sistema occupato, riprova tra poco"

  /** The key of one screening's lock: the prefix followed by `Long.toString` of the id. */
  function LockKey(screeningId: int): (k: string)
    ensures |k| > |LockPrefix| && k[..|LockPrefix|] == LockPrefix
  {
    LockPrefix + IntToDecimal(screeningId)
  }

  /** Different screenings never share a lock. */
  lemma LockKeyInjective(a: int, b: int)
    requires LockKey(a) == LockKey(b)
    ensures a == b
  {
    PrefixCancels(LockPrefix, IntToDecimal(a), IntToDecimal(b));
    IntToDecimalInjective(a, b);
  }

  /** `setIfAbsent(key, token)`: whether the lock was taken, and the store
      afterwards. A store error counts as not acquired. */
  function AcquireStep(store: map<string, string>, key: string, token: string, fault: bool)
    : (r: (bool, map<string, string>))
    ensures r.0 <==> !fault && key !in store
    ensures r.0 ==> key in r.1 && r.1[key] == token
    ensures forall k :: k != key ==> (k in r.1 <==> k in store) && (k in store ==> r.1[k] == store[k])
    ensures key in store ==> r.1 == store
  {
    if fault || key in store then (false, store) else (true, store[key := token])
  }

  /** The release script: delete the key only if it still holds this call's
      token. A store error is swallowed and leaves the store as it was. */
  function ReleaseStep(store: map<string, string>, key: string, token: string, fault: bool)
    : (s: map<string, string>)
    ensures !fault && key in store && store[key] == token ==> key !in s
    ensures (fault || key !in store || store[key] != token) ==> s == store
    ensures forall k :: k != key ==> (k in s <==> k in store) && (k in store ==> s[k] == store[k])
  {
    if !fault && key in store && store[key] == token then store - {key} else store
  }

  /** Redis dropping the key when its timeout runs out. */
  function ExpireStep(store: map<string, string>, key: string): (s: map<string, string>)
    ensures key !in s
    ensures forall k :: k != key ==> (k in s <==> k in store) && (k in store ==> s[k] == store[k])
  {
    store - {key}
  }

  /** A lock taken and released without faults leaves the store as it was. */
  lemma AcquireReleaseRestores(store: map<string, string>, key: string, token: string)
    requires key !in store
    ensures ReleaseStep(AcquireStep(store, key, token, false).1, key, token, false) == store
  {
    var held := AcquireStep(store, key, token, false).1;
    assert ReleaseStep(held, key, token, false).Keys == store.Keys;
  }

  /** A held lock cannot be taken a second time, whatever the token. */
  lemma HeldLockExcludes(store: map<string, string>, key: string, token: string, other: string)
    requires AcquireStep(store, key, token, false).0
    ensures !AcquireStep(AcquireStep(store, key, token, false).1, key, other, false).0
  {
  }

  /** A holder whose lock expired and was taken by someone else cannot
      release the new holder's lock. */
  lemma StaleReleaseKeepsNewHolder(store: map<string, string>, key: string, token: string, other: string)
    requires key !in store && other != token
    ensures var mine := AcquireStep(store, key, token, false).1;
            var theirs := AcquireStep(ExpireStep(mine, key), key, other, false);
            theirs.0 && ReleaseStep(theirs.1, key, token, false) == theirs.1
  {
  }

  /** The key/value store the locks live in. */
  class DistributedLockManager {
    var store: map<string, string>

    constructor (initial: map<string, string>)
      ensures store == initial
    {
      store := initial;
    }

    /** `acquireLock`. */
    method AcquireLock(key: string, token: string, fault: bool) returns (acquired: bool)
      modifies this
      ensures (acquired, store) == AcquireStep(old(store), key, token, fault)
    {
      if fault || key in store {
        return false;
      }
      store := store[key := token];
      acquired := true;
    }

    /** `releaseLock`. */
    method ReleaseLock(key: string, token: string, fault: bool)
      modifies this
      ensures store == ReleaseStep(old(store), key, token, fault)
    {
      if !fault && key in store && store[key] == token {
        store := store - {key};
      }
    }

    /** The key's timeout running out. */
    method ExpireKey(key: string)
      modifies this
      ensures store == ExpireStep(old(store), key)
    {
      store := store - {key};
    }

    /** `executeWithLock`: a failed acquire reports the busy error without
      running the operation; otherwise the operation's outcome, success or
      failure, is returned as it is and the lock is released after it. */
    method ExecuteWithLock<T>(screeningId: int, token: string, operation: () -> Outcome<T>,
                              acquireFault: bool, releaseFault: bool) returns (r: Outcome<T>)
      modifies this
      ensures var acquired := AcquireStep(old(store), LockKey(screeningId), token, acquireFault);
              && (!acquired.0 ==> r == Failure(BookingError(BusyMessage)) && store == old(store))
              && (acquired.0 ==> r == operation() && store == ReleaseStep(acquired.1, LockKey(screeningId), token, releaseFault))
    {
      var lockKey := LockKey(screeningId);
      var lockToken := token;
      var acquired := AcquireLock(lockKey, lockToken, acquireFault);
      if !acquired {
        return Failure(BookingError(BusyMessage));
      }
      r := operation();
      ReleaseLock(lockKey, lockToken, releaseFault);
    }
  }

  /** With no faults and a free key, `executeWithLock` leaves the store as
      it found it; the keys of other screenings are never touched. */
  lemma ExecuteWithLockLeavesStore(store: map<string, string>, screeningId: int, token: string, otherId: int)
    requires LockKey(screeningId) !in store
    requires otherId != screeningId
    ensures ReleaseStep(AcquireStep(store, LockKey(screeningId), token, false).1, LockKey(screeningId), token, false) == store
    ensures LockKey(otherId) != LockKey(screeningId)
  {
    AcquireReleaseRestores(store, LockKey(screeningId), token);
    if LockKey(otherId) == LockKey(screeningId) {
      LockKeyInjective(otherId, screeningId);
    }
  }
}
