/**
 * The `plant_progress` handlers (rise/rise-backend/api/routes/plant.py): one
 * growing plant per user, created on first read, grown by the client and
 * reset to a seedling; an update may also write the user's points and stars.
 *
 * `now` stands for `datetime.now().isoformat()`.
 */
module PlantProgress {
  import opened Wrappers
  import opened Store
  import opened Schema
  import Auth

  /** What get_plant answers: the plant's three counters and the user's points and stars. */
  datatype PlantReport = PlantReport(water: int, sunlight: int, stage: int, points: int, stars: int)

  /** What the catch-all reply carries when the user row is missing (`user.get` on None). */
  const NoUser: string := "'NoneType' object has no attribute 'get'"

  /** The filter {'user_id': u}. */
  function OfUser(u: int): Plant -> bool
  {
    (p: Plant) => p.userId == u
  }

  function UserOf(p: Plant): int
  {
    p.userId
  }

  /** The row get_plant creates for a user without one. */
  function Seedling(u: int, now: string): Plant
  {
    Plant(u, 0, 0, 0, now)
  }

  // ----- get_plant -----

  /** The plant table after get_plant for user u: unchanged when u has a plant, else one seedling more. */
  function Ensured(t: seq<Plant>, u: int, now: string): seq<Plant>
  {
    if SelectOne(t, OfUser(u)).Some? then t else t + [Seedling(u, now)]
  }

  /**
   * What get_plant answers for user u given the plant table it found: the
   * counters of u's first plant (zeros when there was none) with the points
   * and stars of u's user row, or the catch-all error when there is no user row.
   */
  function Report(t: seq<Plant>, users: seq<User>, u: int): (r: Reply<PlantReport>)
    ensures r.Ok? || r == ServerError(NoUser)
    ensures r.Ok? <==> exists i :: 0 <= i < |users| && users[i].id == u
    ensures r.Ok? ==> var user := SelectOne(users, Auth.IdIs(u)).value;
                      r.value.points == user.totalPoints && r.value.stars == user.stars
    ensures r.Ok? && SelectOne(t, OfUser(u)).None? ==> r.value.water == 0 && r.value.sunlight == 0 && r.value.stage == 0
    ensures r.Ok? && SelectOne(t, OfUser(u)).Some? ==>
              var plant := SelectOne(t, OfUser(u)).value;
              r.value.water == plant.water && r.value.sunlight == plant.sunlight && r.value.stage == plant.stage
  {
    var plant := SelectOne(t, OfUser(u));
    var user := SelectOne(users, Auth.IdIs(u));
    if user.None? then ServerError(NoUser)
    else if plant.None? then Ok(PlantReport(0, 0, 0, user.value.totalPoints, user.value.stars))
    else Ok(PlantReport(plant.value.water, plant.value.sunlight, plant.value.stage, user.value.totalPoints, user.value.stars))
  }

  /**
   * get_plant. The seedling is inserted before the user row is read, so it
   * stays even when the answer is the catch-all error.
   */
  method GetPlant(db: Db, userId: Option<int>, now: string) returns (r: Reply<PlantReport>)
    modifies db`plants
    ensures userId.None? ==> r == BadRequest("userId required") && db.plants == old(db.plants)
    ensures userId.Some? ==>
              db.plants == Ensured(old(db.plants), userId.value, now)
              && r == Report(old(db.plants), db.users, userId.value)
  {
    if userId.None? {
      return BadRequest("userId required");
    }
    var u := userId.value;
    var plant := SelectOne(db.plants, OfUser(u));
    var water, sunlight, stage;
    if plant.None? {
      db.plants := db.plants + [Seedling(u, now)];
      water, sunlight, stage := 0, 0, 0;
    } else {
      water, sunlight, stage := plant.value.water, plant.value.sunlight, plant.value.stage;
    }
    var user := SelectOne(db.users, Auth.IdIs(u));
    if user.None? {
      return ServerError(NoUser);
    }
    r := Ok(PlantReport(water, sunlight, stage, user.value.totalPoints, user.value.stars));
  }

  /**
   * After get_plant the user has a plant; the table gains a seedling only
   * when the user had none; a second call changes nothing; the answer is
   * what is stored afterwards; and one plant per user stays one plant per user.
   */
  lemma GetPlantAutoCreates(t: seq<Plant>, users: seq<User>, u: int, now: string, later: string)
    ensures SelectOne(Ensured(t, u, now), OfUser(u)).Some?
    ensures SelectOne(t, OfUser(u)).Some? ==> Ensured(t, u, now) == t
    ensures SelectOne(t, OfUser(u)).None? ==> Ensured(t, u, now) == t + [Seedling(u, now)]
    ensures Ensured(Ensured(t, u, now), u, later) == Ensured(t, u, now)
    ensures Report(Ensured(t, u, now), users, u) == Report(t, users, u)
    ensures UniqueBy(t, UserOf) ==> UniqueBy(Ensured(t, u, now), UserOf)
  {
    if SelectOne(t, OfUser(u)).None? {
      SelectOneAfterAppend(t, Seedling(u, now), OfUser(u));
      if UniqueBy(t, UserOf) {
        NoneSelected(t, OfUser(u));
        AppendKeepsUnique(t, Seedling(u, now), UserOf);
      }
    }
  }

  // ----- update_plant -----

  /** The plant rewrite of update_plant. */
  function SetGrowth(water: int, sunlight: int, stage: int, now: string): Plant -> Plant
  {
    (p: Plant) => p.(water := water, sunlight := sunlight, stage := stage, updatedAt := now)
  }

  /** The user rewrite of update_plant: only the counters that were supplied. */
  function SetCounters(points: Option<int>, stars: Option<int>): User -> User
  {
    (x: User) => x.(totalPoints := points.GetOr(x.totalPoints), stars := stars.GetOr(x.stars))
  }

  /** The users table after update_plant: written only when points or stars is supplied. */
  function CountersWritten(users: seq<User>, u: int, points: Option<int>, stars: Option<int>): seq<User>
  {
    if points.Some? || stars.Some? then UpdateWhere(users, Auth.IdIs(u), SetCounters(points, stars)) else users
  }

  /**
   * update_plant: the user's plant rows take the three counters; the user
   * row takes the points and stars that were supplied. No plant is created.
   */
  method UpdatePlant(db: Db, userId: Option<int>, water: Option<int>, sunlight: Option<int>, stage: Option<int>,
                     points: Option<int>, stars: Option<int>, now: string)
    returns (r: Reply<()>)
    modifies db`plants, db`users
    ensures !(GivenNum(userId) && water.Some? && sunlight.Some? && stage.Some?) ==>
              r == BadRequest("Missing fields") && db.plants == old(db.plants) && db.users == old(db.users)
    ensures GivenNum(userId) && water.Some? && sunlight.Some? && stage.Some? ==>
              r == Ok(())
              && db.plants == UpdateWhere(old(db.plants), OfUser(userId.value), SetGrowth(water.value, sunlight.value, stage.value, now))
              && db.users == CountersWritten(old(db.users), userId.value, points, stars)
  {
    if !(GivenNum(userId) && water.Some? && sunlight.Some? && stage.Some?) {
      return BadRequest("Missing fields");
    }
    var u := userId.value;
    db.plants := UpdateWhere(db.plants, OfUser(u), SetGrowth(water.value, sunlight.value, stage.value, now));
    if points.Some? || stars.Some? {
      db.users := UpdateWhere(db.users, Auth.IdIs(u), SetCounters(points, stars));
    }
    r := Ok(());
  }

  /**
   * After update_plant get_plant reports the new counters, and the points and
   * stars that were supplied (the stored ones otherwise). A user with no plant
   * yet gets nothing written: the next get_plant reports a seedling.
   */
  lemma UpdateThenGet(t: seq<Plant>, users: seq<User>, u: int, water: int, sunlight: int, stage: int,
                      points: Option<int>, stars: Option<int>, now: string)
    requires SelectOne(users, Auth.IdIs(u)).Some?
    ensures var user := SelectOne(users, Auth.IdIs(u)).value;
            var r := Report(UpdateWhere(t, OfUser(u), SetGrowth(water, sunlight, stage, now)),
                            CountersWritten(users, u, points, stars), u);
            r.Ok? && r.value.points == points.GetOr(user.totalPoints) && r.value.stars == stars.GetOr(user.stars)
            && (if SelectOne(t, OfUser(u)).Some?
                then r.value.water == water && r.value.sunlight == sunlight && r.value.stage == stage
                else r.value.water == 0 && r.value.sunlight == 0 && r.value.stage == 0)
  {
    var t' := UpdateWhere(t, OfUser(u), SetGrowth(water, sunlight, stage, now));
    var users' := CountersWritten(users, u, points, stars);
    var user := SelectOne(users, Auth.IdIs(u)).value;
    SelectOneAfterUpdate(t, OfUser(u), SetGrowth(water, sunlight, stage, now));
    SelectOneAfterUpdate(users, Auth.IdIs(u), SetCounters(points, stars));
    assert SelectOne(users', Auth.IdIs(u)).value.totalPoints == points.GetOr(user.totalPoints);
    assert SelectOne(users', Auth.IdIs(u)).value.stars == stars.GetOr(user.stars);
  }

  // ----- reset_plant -----

  /** The rewrite of reset_plant: the three counters back to zero, updated_at kept. */
  function Cleared(p: Plant): Plant
  {
    p.(water := 0, sunlight := 0, stage := 0)
  }

  /** reset_plant: every plant row of the user back to zero. */
  method ResetPlant(db: Db, userId: Option<int>) returns (r: Reply<()>)
    modifies db`plants
    ensures !GivenNum(userId) ==> r == BadRequest("userId required") && db.plants == old(db.plants)
    ensures GivenNum(userId) ==> r == Ok(()) && db.plants == UpdateWhere(old(db.plants), OfUser(userId.value), Cleared)
  {
    if !GivenNum(userId) {
      return BadRequest("userId required");
    }
    db.plants := UpdateWhere(db.plants, OfUser(userId.value), Cleared);
    r := Ok(());
  }

  /** After reset_plant get_plant reports zeros and the same points and stars. */
  lemma ResetThenGet(t: seq<Plant>, users: seq<User>, u: int)
    ensures var r := Report(UpdateWhere(t, OfUser(u), Cleared), users, u);
            r.Ok? ==> r.value == Report(t, users, u).value.(water := 0, sunlight := 0, stage := 0)
  {
    SelectOneAfterUpdate(t, OfUser(u), Cleared);
  }

  /** reset_plant keeps owners and update times, and leaves other users' plants alone. */
  lemma ResetScope(t: seq<Plant>, u: int, v: int)
    requires v != u
    ensures var t' := UpdateWhere(t, OfUser(u), Cleared);
            forall i :: 0 <= i < |t| ==> t'[i].userId == t[i].userId && t'[i].updatedAt == t[i].updatedAt
    ensures Where(UpdateWhere(t, OfUser(u), Cleared), OfUser(v)) == Where(t, OfUser(v))
  {
    UpdateElsewhere(t, OfUser(u), Cleared, OfUser(v));
  }

  /** Resetting twice is resetting once. */
  lemma ResetIdempotent(t: seq<Plant>, u: int)
    ensures UpdateWhere(UpdateWhere(t, OfUser(u), Cleared), OfUser(u), Cleared) == UpdateWhere(t, OfUser(u), Cleared)
  {
    var once := UpdateWhere(t, OfUser(u), Cleared);
    var twice := UpdateWhere(once, OfUser(u), Cleared);
    forall i | 0 <= i < |t| ensures twice[i] == once[i] {
    }
  }
}
