/** The per-class booking lock kept in Redis: a table from lock key (one per class
    schedule) to the token of the request holding it. Key expiry is not modelled;
    a takeover after expiry is represented by another token appearing under the key. */
module RedisLock {
  import opened Entities

  type LockTable = map<ScheduleId, string>

  /** SET key token NX: stores the token only when the key is free and reports whether
      it did. */
  function SetIfAbsent(locks: LockTable, key: ScheduleId, token: string): (r: (bool, LockTable))
    ensures r.0 <==> key !in locks
    ensures r.0 ==> r.1 == locks[key := token]
    ensures !r.0 ==> r.1 == locks
  {
    if key in locks then (false, locks) else (true, locks[key := token])
  }

  /** The guarded release of the main variant: GET, compare with the own token, and
      DEL only on a match. */
  function CompareAndDelete(locks: LockTable, key: ScheduleId, token: string): (r: LockTable)
    ensures key in locks && locks[key] == token ==> r == locks - {key}
    ensures !(key in locks && locks[key] == token) ==> r == locks
  {
    if key in locks && locks[key] == token then locks - {key} else locks
  }

  /** The release of the older variant: DEL whatever the key holds. */
  function Delete(locks: LockTable, key: ScheduleId): (r: LockTable)
    ensures key !in r
    ensures forall k :: k in locks && k != key ==> k in r && r[k] == locks[k]
    ensures forall k :: k in r ==> k in locks
  {
    locks - {key}
  }

  /** Acquiring a free key and releasing it with the same token gives back the
      table as it was, under either release. */
  lemma {:induction false} AcquireReleaseRestores(locks: LockTable, key: ScheduleId, token: string)
    requires key !in locks
    ensures var (acquired, held) := SetIfAbsent(locks, key, token);
      acquired && CompareAndDelete(held, key, token) == locks && Delete(held, key) == locks
  {
    var held := locks[key := token];
    assert held - {key} == locks;
  }

  /** While the key is held, a second request neither acquires it nor disturbs it. */
  lemma HeldKeyBlocksOthers(locks: LockTable, key: ScheduleId, token: string, other: string)
    requires key in locks && locks[key] == token
    ensures SetIfAbsent(locks, key, other) == (false, locks)
    ensures other != token ==> CompareAndDelete(locks, key, other) == locks
  {
  }

  /** Once another request has taken the key over (after the holder's key expired),
      the guarded release leaves the new holder's lock in place, while the
      unconditional release of the older variant removes it. */
  lemma ReleaseAfterTakeover(locks: LockTable, key: ScheduleId, token: string, other: string)
    requires key in locks && locks[key] == other && other != token
    ensures CompareAndDelete(locks, key, token) == locks
    ensures key !in Delete(locks, key)
  {
  }
}
