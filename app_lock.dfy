/**
 * The `app_locks` handlers (rise-backend/api/routes/app_lock.py): at most one
 * lock (a type and a secret value) per user, read, saved by upsert and removed.
 */
module AppLocks {
  import opened Wrappers
  import opened Store
  import opened Schema

  /** What get_lock answers for a stored lock. */
  datatype LockView = LockView(lockType: string, lockValue: string)

  /** The filter {'user_id': u}. */
  function OfUser(u: int): AppLock -> bool
  {
    (l: AppLock) => l.userId == u
  }

  function UserOf(l: AppLock): int
  {
    l.userId
  }

  // ----- get_lock -----

  /** get_lock: the type and value of the user's first lock, or null when the user has none. */
  function GetLock(t: seq<AppLock>, userId: Option<int>): (r: Reply<Option<LockView>>)
    ensures userId.None? <==> r == BadRequest("userId required")
    ensures r.Ok? || r.BadRequest?
    ensures r.Ok? ==> (r.value.None? <==> forall i :: 0 <= i < |t| ==> t[i].userId != userId.value)
    ensures r.Ok? && r.value.Some? ==>
              var i := FirstIndex(t, OfUser(userId.value));
              i < |t| && r.value.value == LockView(t[i].lockType, t[i].lockValue)
  {
    if userId.None? then BadRequest("userId required")
    else
      var lock := SelectOne(t, OfUser(userId.value));
      if lock.None? then Ok(None)
      else Ok(Some(LockView(lock.value.lockType, lock.value.lockValue)))
  }

  // ----- save_lock -----

  /** The rewrite of an existing lock. */
  function SetLock(lockType: string, lockValue: string): AppLock -> AppLock
  {
    (l: AppLock) => l.(lockType := lockType, lockValue := lockValue)
  }

  /** The table after save_lock for user u: the user's locks rewritten, or a new lock. */
  function LockSaved(t: seq<AppLock>, u: int, lockType: string, lockValue: string): seq<AppLock>
  {
    if SelectOne(t, OfUser(u)).Some? then UpdateWhere(t, OfUser(u), SetLock(lockType, lockValue))
    else t + [AppLock(u, lockType, lockValue)]
  }

  /** save_lock: userId, lockType and lockValue are all required; then an upsert by user. */
  method SaveLock(db: Db, userId: Option<int>, lockType: Option<string>, lockValue: Option<string>)
    returns (r: Reply<()>)
    modifies db`locks
    ensures !(GivenNum(userId) && GivenText(lockType) && GivenText(lockValue)) ==>
              r == BadRequest("Missing fields") && db.locks == old(db.locks)
    ensures GivenNum(userId) && GivenText(lockType) && GivenText(lockValue) ==>
              r == Ok(()) && db.locks == LockSaved(old(db.locks), userId.value, lockType.value, lockValue.value)
  {
    if !(GivenNum(userId) && GivenText(lockType) && GivenText(lockValue)) {
      return BadRequest("Missing fields");
    }
    var u := userId.value;
    var existing := SelectOne(db.locks, OfUser(u));
    if existing.Some? {
      db.locks := UpdateWhere(db.locks, OfUser(u), SetLock(lockType.value, lockValue.value));
    } else {
      db.locks := db.locks + [AppLock(u, lockType.value, lockValue.value)];
    }
    r := Ok(());
  }

  /**
   * save_lock is an upsert: get_lock then answers the saved type and value,
   * the table gains a row only when the user had none, and one lock per user
   * stays one lock per user.
   */
  lemma SaveThenGet(t: seq<AppLock>, u: int, lockType: string, lockValue: string)
    ensures GetLock(LockSaved(t, u, lockType, lockValue), Some(u)) == Ok(Some(LockView(lockType, lockValue)))
    ensures |LockSaved(t, u, lockType, lockValue)| == |t| + (if SelectOne(t, OfUser(u)).Some? then 0 else 1)
    ensures UniqueBy(t, UserOf) ==> UniqueBy(LockSaved(t, u, lockType, lockValue), UserOf)
  {
    var f := SetLock(lockType, lockValue);
    if SelectOne(t, OfUser(u)).Some? {
      SelectOneAfterUpdate(t, OfUser(u), f);
      if UniqueBy(t, UserOf) {
        UpdateKeepsUnique(t, OfUser(u), f, UserOf);
      }
    } else {
      SelectOneAfterAppend(t, AppLock(u, lockType, lockValue), OfUser(u));
      if UniqueBy(t, UserOf) {
        NoneSelected(t, OfUser(u));
        AppendKeepsUnique(t, AppLock(u, lockType, lockValue), UserOf);
      }
    }
  }

  /** save_lock for one user leaves what get_lock answers for every other user as it was. */
  lemma SaveLeavesOthers(t: seq<AppLock>, u: int, v: int, lockType: string, lockValue: string)
    requires v != u
    ensures GetLock(LockSaved(t, u, lockType, lockValue), Some(v)) == GetLock(t, Some(v))
  {
    if SelectOne(t, OfUser(u)).Some? {
      UpdateElsewhere(t, OfUser(u), SetLock(lockType, lockValue), OfUser(v));
    } else {
      AppendElsewhere(t, AppLock(u, lockType, lockValue), OfUser(v));
    }
  }

  // ----- remove_lock -----

  /** remove_lock: every lock of the user is deleted. */
  method RemoveLock(db: Db, userId: Option<int>) returns (r: Reply<()>)
    modifies db`locks
    ensures userId.None? ==> r == BadRequest("userId required") && db.locks == old(db.locks)
    ensures userId.Some? ==> r == Ok(()) && db.locks == DeleteWhere(old(db.locks), OfUser(userId.value))
  {
    if userId.None? {
      return BadRequest("userId required");
    }
    db.locks := DeleteWhere(db.locks, OfUser(userId.value));
    r := Ok(());
  }

  /** After remove_lock get_lock answers null for that user and what it answered before for every other user. */
  lemma RemoveThenGet(t: seq<AppLock>, u: int, v: int)
    requires v != u
    ensures GetLock(DeleteWhere(t, OfUser(u)), Some(u)) == Ok(None)
    ensures GetLock(DeleteWhere(t, OfUser(u)), Some(v)) == GetLock(t, Some(v))
  {
    DeleteLeavesNoMatch(t, OfUser(u));
    DeleteElsewhere(t, OfUser(u), OfUser(v));
  }
}
