/**
 * The `home_status` handlers (rise/rise-backend/api/routes/home.py): one row
 * per (user, date) with a water counter, a water goal and a detox progress.
 */
module Home {
  import opened Wrappers
  import opened Store
  import opened Text
  import opened Schema

  /** The goal a new row starts with. */
  const DefaultWaterGoal: int := 8

  /** The filter {'user_id': u, 'date': d}. */
  function At(u: int, d: string): HomeStatus -> bool
  {
    (s: HomeStatus) => s.userId == u && s.date == d
  }

  /** The key the handlers treat as identifying a row. */
  function Key(s: HomeStatus): (int, string)
  {
    (s.userId, s.date)
  }

  /** The `status` object get_status answers with: a stored row, or the defaults. */
  datatype StatusBody =
    | Stored(row: HomeStatus)
    | Defaults(waterCount: int, waterGoal: int, detoxProgress: real)
  {
    function Water(): int
    {
      match this
      case Stored(row) => row.waterCount
      case Defaults(w, _, _) => w
    }

    function Detox(): real
    {
      match this
      case Stored(row) => row.detoxProgress
      case Defaults(_, _, p) => p
    }
  }

  /** get_status: the stored row for (user, date), or water 0, goal 8, detox 0.0. */
  function GetStatus(t: seq<HomeStatus>, userId: Option<int>, date: Option<string>): (r: Reply<StatusBody>)
    ensures !(userId.Some? && GivenText(date)) <==> r == BadRequest("userId and date required")
    ensures r.Ok? ==> (r.value.Defaults? <==> forall i :: 0 <= i < |t| ==> Key(t[i]) != (userId.value, date.value))
    ensures r.Ok? && r.value.Defaults? ==> r.value == Defaults(0, 8, 0.0)
    ensures r.Ok? && r.value.Stored? ==> r.value.row in t && Key(r.value.row) == (userId.value, date.value)
  {
    if userId.None? || !GivenText(date) then BadRequest("userId and date required")
    else
      match SelectOne(t, At(userId.value, date.value))
      case Some(row) => Ok(Stored(row))
      case None => Ok(Defaults(0, DefaultWaterGoal, 0.0))
  }

  /** The keys of the request's `status` object that save_status reads, and whether it has others. */
  datatype StatusPatch = StatusPatch(
    waterCount: Option<int>,
    waterGoal: Option<int>,
    detoxProgress: Option<real>,
    otherKeys: bool)
  {
    /** A JSON object is true in Python when it has at least one key. */
    predicate NonEmpty()
    {
      waterCount.Some? || waterGoal.Some? || detoxProgress.Some? || otherKeys
    }

    /** The stored values: each missing key falls back to 0, 8 or 0.0. */
    function Row(u: int, d: string): HomeStatus
    {
      HomeStatus(u, d, waterCount.GetOr(0), waterGoal.GetOr(DefaultWaterGoal), detoxProgress.GetOr(0.0))
    }
  }

  /** The rewrite save_status applies to an existing row: all three values from `row`. */
  function SetValues(row: HomeStatus): HomeStatus -> HomeStatus
  {
    (s: HomeStatus) => s.(waterCount := row.waterCount, waterGoal := row.waterGoal, detoxProgress := row.detoxProgress)
  }

  /** The rewrite {'water_count': n}. */
  function SetWater(n: int): HomeStatus -> HomeStatus
  {
    (s: HomeStatus) => s.(waterCount := n)
  }

  /** The rewrite {'detox_progress': v}. */
  function SetDetox(v: real): HomeStatus -> HomeStatus
  {
    (s: HomeStatus) => s.(detoxProgress := v)
  }

  /** The table after save_status for (u, d): the row is overwritten if present, else added. */
  function Saved(t: seq<HomeStatus>, u: int, d: string, p: StatusPatch): seq<HomeStatus>
  {
    var row := p.Row(u, d);
    if SelectOne(t, At(u, d)).Some? then
      UpdateWhere(t, At(u, d), SetValues(row))
    else t + [row]
  }

  /** The table after increment_water for (u, d). */
  function Incremented(t: seq<HomeStatus>, u: int, d: string): seq<HomeStatus>
  {
    match SelectOne(t, At(u, d))
    case Some(existing) => UpdateWhere(t, At(u, d), SetWater(existing.waterCount + 1))
    case None => t + [HomeStatus(u, d, 1, DefaultWaterGoal, 0.0)]
  }

  /** The table after decrement_water for (u, d): never below 0, and nothing is created. */
  function Decremented(t: seq<HomeStatus>, u: int, d: string): seq<HomeStatus>
  {
    match SelectOne(t, At(u, d))
    case Some(existing) =>
      var n := if existing.waterCount - 1 > 0 then existing.waterCount - 1 else 0;
      UpdateWhere(t, At(u, d), SetWater(n))
    case None => t
  }

  /** The table after update_detox for (u, d). */
  function DetoxUpdated(t: seq<HomeStatus>, u: int, d: string, v: real): seq<HomeStatus>
  {
    if SelectOne(t, At(u, d)).Some? then UpdateWhere(t, At(u, d), SetDetox(v))
    else t + [HomeStatus(u, d, 0, DefaultWaterGoal, v)]
  }

  method SaveStatus(db: Db, userId: Option<int>, date: Option<string>, status: Option<StatusPatch>)
    returns (r: Reply<()>)
    modifies db`homeStatus
    ensures var ok := GivenNum(userId) && GivenText(date) && status.Some? && status.value.NonEmpty();
            if ok then r == Ok(()) && db.homeStatus == Saved(old(db.homeStatus), userId.value, date.value, status.value)
            else r == BadRequest("Missing required fields") && db.homeStatus == old(db.homeStatus)
  {
    if !GivenNum(userId) || !GivenText(date) || status.None? || !status.value.NonEmpty() {
      return BadRequest("Missing required fields");
    }
    var u, d := userId.value, date.value;
    var existing := SelectOne(db.homeStatus, At(u, d));
    var row := status.value.Row(u, d);
    if existing.Some? {
      db.homeStatus := UpdateWhere(db.homeStatus, At(u, d), SetValues(row));
    } else {
      db.homeStatus := db.homeStatus + [row];
    }
    r := Ok(());
  }

  method IncrementWater(db: Db, userId: Option<int>, date: Option<string>) returns (r: Reply<()>)
    modifies db`homeStatus
    ensures if GivenNum(userId) && GivenText(date)
            then r == Ok(()) && db.homeStatus == Incremented(old(db.homeStatus), userId.value, date.value)
            else r == BadRequest("userId and date required") && db.homeStatus == old(db.homeStatus)
  {
    if !GivenNum(userId) || !GivenText(date) {
      return BadRequest("userId and date required");
    }
    var u, d := userId.value, date.value;
    var existing := SelectOne(db.homeStatus, At(u, d));
    if existing.Some? {
      var newCount := existing.value.waterCount + 1;
      IncrementedRewrites(db.homeStatus, u, d, newCount);
      db.homeStatus := UpdateWhere(db.homeStatus, At(u, d), SetWater(newCount));
      return Ok(());
    } else {
      db.homeStatus := db.homeStatus + [HomeStatus(u, d, 1, DefaultWaterGoal, 0.0)];
      return Ok(());
    }
  }

  method DecrementWater(db: Db, userId: Option<int>, date: Option<string>) returns (r: Reply<()>)
    modifies db`homeStatus
    ensures if GivenNum(userId) && GivenText(date)
            then r == Ok(()) && db.homeStatus == Decremented(old(db.homeStatus), userId.value, date.value)
            else r == BadRequest("userId and date required") && db.homeStatus == old(db.homeStatus)
  {
    if !GivenNum(userId) || !GivenText(date) {
      return BadRequest("userId and date required");
    }
    var u, d := userId.value, date.value;
    var existing := SelectOne(db.homeStatus, At(u, d));
    if existing.Some? {
      var currentCount := existing.value.waterCount;
      var newCount := if currentCount - 1 > 0 then currentCount - 1 else 0;
      db.homeStatus := UpdateWhere(db.homeStatus, At(u, d), SetWater(newCount));
    }
    r := Ok(());
  }

  method UpdateDetox(db: Db, userId: Option<int>, date: Option<string>, detoxProgress: Option<real>)
    returns (r: Reply<()>)
    modifies db`homeStatus
    ensures if GivenNum(userId) && GivenText(date) && detoxProgress.Some?
            then r == Ok(()) && db.homeStatus == DetoxUpdated(old(db.homeStatus), userId.value, date.value, detoxProgress.value)
            else r == BadRequest("Missing required fields") && db.homeStatus == old(db.homeStatus)
  {
    if !GivenNum(userId) || !GivenText(date) || detoxProgress.None? {
      return BadRequest("Missing required fields");
    }
    var u, d, v := userId.value, date.value, detoxProgress.value;
    var existing := SelectOne(db.homeStatus, At(u, d));
    if existing.Some? {
      db.homeStatus := UpdateWhere(db.homeStatus, At(u, d), SetDetox(v));
    } else {
      db.homeStatus := db.homeStatus + [HomeStatus(u, d, 0, DefaultWaterGoal, v)];
    }
    r := Ok(());
  }

  /** The date filter of get_range: start <= date <= end as Python compares strings. */
  function InDates(start: string, end: string): HomeStatus -> bool
  {
    (s: HomeStatus) => LexLe(start, s.date) && LexLe(s.date, end)
  }

  /** The user's rows whose date lies in [start, end]. */
  function InRange(u: int, start: string, end: string): HomeStatus -> bool
  {
    (s: HomeStatus) => s.userId == u && LexLe(start, s.date) && LexLe(s.date, end)
  }

  /**
   * get_range: the user's rows with start <= date <= end, in table order,
   * gathered by the source's appending loop.
   */
  method GetRange(t: seq<HomeStatus>, userId: Option<int>, startDate: Option<string>, endDate: Option<string>)
    returns (r: Reply<seq<HomeStatus>>)
    ensures !(userId.Some? && GivenText(startDate) && GivenText(endDate))
            <==> r == BadRequest("userId, startDate, and endDate required")
    ensures r.Ok? ==> r.value == Where(t, InRange(userId.value, startDate.value, endDate.value))
    ensures r.Ok? ==> forall s :: s in r.value <==>
              s in t && s.userId == userId.value && LexLe(startDate.value, s.date) && LexLe(s.date, endDate.value)
  {
    if userId.None? || !GivenText(startDate) || !GivenText(endDate) {
      return BadRequest("userId, startDate, and endDate required");
    }
    var u, start, end := userId.value, startDate.value, endDate.value;
    var result := Where(t, (s: HomeStatus) => s.userId == u);
    var filtered: seq<HomeStatus> := [];
    var i := 0;
    while i < |result|
      invariant 0 <= i <= |result|
      invariant filtered == Where(result[..i], InDates(start, end))
    {
      var status := result[i];
      WhereSnoc(result, i, InDates(start, end));
      if LexLe(start, status.date) && LexLe(status.date, end) {
        filtered := filtered + [status];
      }
      i := i + 1;
    }
    assert result[..|result|] == result;
    WhereWhere(t, (s: HomeStatus) => s.userId == u, InDates(start, end), InRange(u, start, end));
    r := Ok(filtered);
    WhereMembers(t, InRange(u, start, end));
  }

  // ----- Properties of the handlers -----

  /** get_status on a valid request, unfolded once. */
  lemma StatusOf(t: seq<HomeStatus>, u: int, d: string)
    requires d != ""
    ensures GetStatus(t, Some(u), Some(d))
         == Ok(match SelectOne(t, At(u, d)) case Some(row) => Stored(row) case None => Defaults(0, 8, 0.0))
  {
  }

  /**
   * save_status is an upsert: the table gains a row exactly when (u, d) had
   * none, rows with other keys are untouched, and (user, date) stays a key.
   */
  lemma SaveStatusUpserts(t: seq<HomeStatus>, u: int, d: string, p: StatusPatch)
    ensures var had := exists i :: 0 <= i < |t| && Key(t[i]) == (u, d);
            |Saved(t, u, d, p)| == |t| + (if had then 0 else 1)
    ensures forall i :: 0 <= i < |t| && Key(t[i]) != (u, d) ==> Saved(t, u, d, p)[i] == t[i]
    ensures UniqueBy(t, Key) ==> UniqueBy(Saved(t, u, d, p), Key)
  {
    var row := p.Row(u, d);
    if SelectOne(t, At(u, d)).Some? {
      var i := FirstIndex(t, At(u, d));
      assert Key(t[i]) == (u, d);
      if UniqueBy(t, Key) {
        UpdateKeepsUnique(t, At(u, d), SetValues(row), Key);
      }
    } else {
      assert forall j :: 0 <= j < |t| ==> Key(t[j]) != (u, d) by {
        assert forall j :: 0 <= j < |t| ==> !At(u, d)(t[j]);
      }
      if UniqueBy(t, Key) {
        AppendKeepsUnique(t, row, Key);
      }
    }
  }

  /**
   * After save_status every row at (u, d) holds the request's values, with
   * 0, 8 and 0.0 for the keys the request left out.
   */
  lemma SaveStatusWritesRow(t: seq<HomeStatus>, u: int, d: string, p: StatusPatch)
    ensures forall s :: s in Saved(t, u, d, p) && Key(s) == (u, d) ==> s == p.Row(u, d)
  {
    var s' := Saved(t, u, d, p);
    var row := p.Row(u, d);
    if SelectOne(t, At(u, d)).Some? {
      forall s | s in s' && Key(s) == (u, d) ensures s == row {
        var i :| 0 <= i < |s'| && s'[i] == s;
      }
    } else {
      assert forall j :: 0 <= j < |t| ==> !At(u, d)(t[j]);
      assert s' == t + [row];
    }
  }

  /** After save_status, get_status for the same (user, date) answers the saved values. */
  lemma SaveThenGet(t: seq<HomeStatus>, u: int, d: string, p: StatusPatch)
    requires d != ""
    ensures GetStatus(Saved(t, u, d, p), Some(u), Some(d)) == Ok(Stored(p.Row(u, d)))
  {
    var row := p.Row(u, d);
    var f := SetValues(row);
    if SelectOne(t, At(u, d)).Some? {
      SelectOneAfterUpdate(t, At(u, d), f);
    } else {
      SelectOneAfterAppend(t, row, At(u, d));
    }
  }

  /**
   * increment_water raises the count get_status reports by exactly one, whether
   * the row existed (old count + 1) or is created (default 0, stored as 1).
   */
  lemma IncrementWaterAddsOne(t: seq<HomeStatus>, u: int, d: string)
    requires d != ""
    ensures GetStatus(Incremented(t, u, d), Some(u), Some(d)).value.Water()
         == GetStatus(t, Some(u), Some(d)).value.Water() + 1
  {
    StatusOf(t, u, d);
    StatusOf(Incremented(t, u, d), u, d);
    if SelectOne(t, At(u, d)).Some? {
      IncrementedExisting(t, u, d);
    } else {
      IncrementedFresh(t, u, d);
    }
  }

  /** When the day has a row, increment_water is the rewrite to count n + 1. */
  lemma IncrementedRewrites(t: seq<HomeStatus>, u: int, d: string, n: int)
    requires SelectOne(t, At(u, d)).Some? && n == SelectOne(t, At(u, d)).value.waterCount + 1
    ensures Incremented(t, u, d) == UpdateWhere(t, At(u, d), SetWater(n))
  {
  }

  /** increment_water on an existing row at (u, d): the row gets one more glass. */
  lemma IncrementedExisting(t: seq<HomeStatus>, u: int, d: string)
    requires SelectOne(t, At(u, d)).Some?
    ensures var row := SelectOne(t, At(u, d)).value;
            SelectOne(Incremented(t, u, d), At(u, d)) == Some(row.(waterCount := row.waterCount + 1))
  {
    var f := SetWater(SelectOne(t, At(u, d)).value.waterCount + 1);
    SelectOneAfterUpdate(t, At(u, d), f);
  }

  /** increment_water with no row at (u, d): the row is created as (1, 8, 0.0). */
  lemma IncrementedFresh(t: seq<HomeStatus>, u: int, d: string)
    requires SelectOne(t, At(u, d)).None?
    ensures SelectOne(Incremented(t, u, d), At(u, d)) == Some(HomeStatus(u, d, 1, DefaultWaterGoal, 0.0))
  {
    SelectOneAfterAppend(t, HomeStatus(u, d, 1, DefaultWaterGoal, 0.0), At(u, d));
  }

  /**
   * increment_water on an existing row changes only water_count, and only on
   * rows at (u, d); with no row it appends exactly one row (1, 8, 0.0).
   */
  lemma IncrementWaterChangesOnlyCount(t: seq<HomeStatus>, u: int, d: string)
    requires UniqueBy(t, Key)
    ensures var r := Incremented(t, u, d);
            if exists i :: 0 <= i < |t| && Key(t[i]) == (u, d) then
              |r| == |t| && forall i :: 0 <= i < |t| ==>
                r[i] == if Key(t[i]) == (u, d) then t[i].(waterCount := t[i].waterCount + 1) else t[i]
            else r == t + [HomeStatus(u, d, 1, 8, 0.0)]
  {
    match SelectOne(t, At(u, d))
    case Some(existing) =>
      forall i | 0 <= i < |t| && Key(t[i]) == (u, d) ensures t[i] == existing {
        SelectOneUnique(t, Key, (u, d), At(u, d), i);
      }
    case None =>
  }

  /** increment_water keeps (user, date) a key. */
  lemma IncrementKeepsKey(t: seq<HomeStatus>, u: int, d: string)
    requires UniqueBy(t, Key)
    ensures UniqueBy(Incremented(t, u, d), Key)
  {
    if SelectOne(t, At(u, d)).Some? {
      var n := SelectOne(t, At(u, d)).value.waterCount + 1;
      IncrementedRewrites(t, u, d, n);
      CountedRowKeepsKey(t, u, d, n);
    } else {
      FreshRowKeepsKey(t, HomeStatus(u, d, 1, DefaultWaterGoal, 0.0));
    }
  }

  /** Rewriting the water count of the (user, date) rows keeps one row per day. */
  lemma CountedRowKeepsKey(t: seq<HomeStatus>, u: int, d: string, n: int)
    requires UniqueBy(t, Key)
    ensures UniqueBy(UpdateWhere(t, At(u, d), SetWater(n)), Key)
  {
    UpdateKeepsUnique(t, At(u, d), SetWater(n), Key);
  }

  /** A row whose (user, date) has no row yet can be appended without a second row for that day. */
  lemma FreshRowKeepsKey(t: seq<HomeStatus>, x: HomeStatus)
    requires UniqueBy(t, Key)
    requires SelectOne(t, At(x.userId, x.date)).None?
    ensures UniqueBy(t + [x], Key)
  {
    NoneSelected(t, At(x.userId, x.date));
    AppendKeepsUnique(t, x, Key);
  }

  /**
   * decrement_water: the count get_status reports becomes max(0, old - 1) in
   * every case, so it never goes below 0; without a row the table is unchanged.
   */
  lemma DecrementWaterClamps(t: seq<HomeStatus>, u: int, d: string)
    requires d != ""
    ensures var before := GetStatus(t, Some(u), Some(d)).value.Water();
            GetStatus(Decremented(t, u, d), Some(u), Some(d)).value.Water()
              == if before - 1 > 0 then before - 1 else 0
    ensures SelectOne(t, At(u, d)).None? ==> Decremented(t, u, d) == t
  {
    StatusOf(t, u, d);
    StatusOf(Decremented(t, u, d), u, d);
    match SelectOne(t, At(u, d))
    case Some(existing) =>
      var n := if existing.waterCount - 1 > 0 then existing.waterCount - 1 else 0;
      SelectOneAfterUpdate(t, At(u, d), SetWater(n));
    case None =>
  }

  /**
   * update_detox is an upsert: the table gains a row exactly when (u, d) had
   * none, and (user, date) stays a key.
   */
  lemma UpdateDetoxUpserts(t: seq<HomeStatus>, u: int, d: string, v: real)
    ensures var had := exists i :: 0 <= i < |t| && Key(t[i]) == (u, d);
            |DetoxUpdated(t, u, d, v)| == |t| + (if had then 0 else 1)
    ensures UniqueBy(t, Key) ==> UniqueBy(DetoxUpdated(t, u, d, v), Key)
  {
    var row := HomeStatus(u, d, 0, DefaultWaterGoal, v);
    if SelectOne(t, At(u, d)).Some? {
      if UniqueBy(t, Key) {
        UpdateKeepsUnique(t, At(u, d), SetDetox(v), Key);
      }
    } else {
      if UniqueBy(t, Key) {
        FreshRowKeepsKey(t, row);
      }
    }
  }

  /** After update_detox get_status reports the new detox progress. */
  lemma UpdateDetoxThenGet(t: seq<HomeStatus>, u: int, d: string, v: real)
    requires d != ""
    ensures GetStatus(DetoxUpdated(t, u, d, v), Some(u), Some(d)).value.Detox() == v
  {
    StatusOf(DetoxUpdated(t, u, d, v), u, d);
    if SelectOne(t, At(u, d)).Some? {
      SelectOneAfterUpdate(t, At(u, d), SetDetox(v));
    } else {
      SelectOneAfterAppend(t, HomeStatus(u, d, 0, DefaultWaterGoal, v), At(u, d));
    }
  }
}
