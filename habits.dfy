/**
 * The `habits` handlers (rise/rise-backend/api/routes/habits.py). Habits are
 * addressed by id or by (user, title); titles are not required to be unique.
 * `now` stands for `datetime.now().isoformat()`.
 */
module Habits {
  import opened Wrappers
  import opened Store
  import opened Schema

  /** The status add_habit gives every new habit. */
  const Active: string := "active"

  /** The status get_completed_habits counts. */
  const Completed: string := "completed"

  /** The filter {'user_id': u}, with {'frequency': f} when a frequency is given. */
  function OfUser(u: int, frequency: Option<string>): Habit -> bool
  {
    (h: Habit) => h.userId == Some(u) && (GivenText(frequency) ==> h.frequency == frequency)
  }

  /** The filter {'user_id': u, 'title': title}, with {'frequency': f} when given. */
  function Titled(u: int, title: string, frequency: Option<string>): Habit -> bool
  {
    (h: Habit) => h.userId == Some(u) && h.title == Some(title) && (GivenText(frequency) ==> h.frequency == frequency)
  }

  /** The filter {'id': id, 'user_id': u}. */
  function Owned(id: int, u: int): Habit -> bool
  {
    (h: Habit) => h.id == id && h.userId == Some(u)
  }

  /** The filter {'user_id': u, 'status': 'completed'}. */
  function CompletedBy(u: int): Habit -> bool
  {
    (h: Habit) => h.userId == Some(u) && h.status == Some(Completed)
  }

  /** get_habits: the user's habits in table order, narrowed to one frequency when one is given. */
  function GetHabits(t: seq<Habit>, userId: Option<int>, frequency: Option<string>): (r: Reply<seq<Habit>>)
    ensures userId.None? <==> r == BadRequest("userId required")
    ensures r.Ok? || r.BadRequest?
    ensures r.Ok? ==> forall h :: h in r.value <==>
              h in t && h.userId == Some(userId.value) && (GivenText(frequency) ==> h.frequency == frequency)
  {
    if userId.None? then BadRequest("userId required")
    else
      WhereMembers(t, OfUser(userId.value, frequency));
      Ok(Where(t, OfUser(userId.value, frequency)))
  }

  // ----- add_habit -----

  /** The row add_habit inserts: status "active", 10 points and no reminder unless the request says otherwise. */
  function NewHabit(t: seq<Habit>, userId: Option<int>, title: Option<string>, description: Option<string>,
                    frequency: Option<string>, doItAt: Option<string>, points: Option<int>,
                    remindMe: Option<bool>): (h: Habit)
    ensures h.status == Some(Active) && h.points == points.GetOr(10) && h.remindMe == remindMe.GetOr(false)
    ensures forall x :: x in t ==> x.id < h.id
  {
    Habit(NextId(t, (x: Habit) => x.id), userId, title, description, frequency, Some(Active), doItAt,
          points.GetOr(10), remindMe.GetOr(false), None)
  }

  /**
   * add_habit: nothing is validated; the reply carries the new id when the
   * store echoes the inserted row (`echoed`), and null otherwise.
   */
  method AddHabit(db: Db, userId: Option<int>, title: Option<string>, description: Option<string>,
                  frequency: Option<string>, doItAt: Option<string>, points: Option<int>,
                  remindMe: Option<bool>, echoed: bool)
    returns (r: Reply<Option<int>>)
    modifies db`habits
    ensures var h := NewHabit(old(db.habits), userId, title, description, frequency, doItAt, points, remindMe);
            db.habits == old(db.habits) + [h] && r == Ok(if echoed then Some(h.id) else None)
  {
    var row := NewHabit(db.habits, userId, title, description, frequency, doItAt, points, remindMe);
    db.habits := db.habits + [row];
    r := Ok(if echoed then Some(row.id) else None);
  }

  /**
   * A habit just added for user u is listed last by get_habits (after the
   * habits listed before), and check_habit_exists finds its title.
   */
  lemma AddThenList(t: seq<Habit>, u: int, title: string, description: Option<string>,
                    frequency: Option<string>, doItAt: Option<string>, points: Option<int>, remindMe: Option<bool>)
    requires title != ""
    ensures var h := NewHabit(t, Some(u), Some(title), description, frequency, doItAt, points, remindMe);
            GetHabits(t + [h], Some(u), None) == Ok(GetHabits(t, Some(u), None).value + [h])
            && CheckHabitExists(t + [h], Some(u), Some(title), None) == Ok(true)
  {
    var h := NewHabit(t, Some(u), Some(title), description, frequency, doItAt, points, remindMe);
    AppendMatching(t, h, OfUser(u, None));
    WhereMembers(t + [h], Titled(u, title, None));
    WhereHead(t + [h], Titled(u, title, None));
  }

  /** Ids stay unique when habits are added. */
  lemma AddKeepsIdsUnique(t: seq<Habit>, userId: Option<int>, title: Option<string>, description: Option<string>,
                          frequency: Option<string>, doItAt: Option<string>, points: Option<int>, remindMe: Option<bool>)
    requires UniqueBy(t, (x: Habit) => x.id)
    ensures UniqueBy(t + [NewHabit(t, userId, title, description, frequency, doItAt, points, remindMe)], (x: Habit) => x.id)
  {
    AppendKeepsUnique(t, NewHabit(t, userId, title, description, frequency, doItAt, points, remindMe), (x: Habit) => x.id);
  }

  // ----- update_habit, update_habit_status -----

  /**
   * The rewrite update_habit applies: status is always written (null when the
   * request has none), last_updated is `now`, and remind_me and do_it_at only
   * when their keys are present.
   */
  function HabitEdit(status: Option<string>, remindMe: Option<bool>, doItAt: Option<string>, now: string): Habit -> Habit
  {
    (h: Habit) => h.(status := status, lastUpdated := Some(now),
                     remindMe := remindMe.GetOr(h.remindMe), doItAt := if doItAt.Some? then doItAt else h.doItAt)
  }

  method UpdateHabit(db: Db, habitId: Option<int>, userId: Option<int>, status: Option<string>,
                     remindMe: Option<bool>, doItAt: Option<string>, now: string)
    returns (r: Reply<()>)
    modifies db`habits
    ensures if GivenNum(habitId) && GivenNum(userId)
            then r == Ok(()) && db.habits == UpdateWhere(old(db.habits), Owned(habitId.value, userId.value),
                                                         HabitEdit(status, remindMe, doItAt, now))
            else r == BadRequest("habitId and userId required") && db.habits == old(db.habits)
  {
    if !GivenNum(habitId) || !GivenNum(userId) {
      return BadRequest("habitId and userId required");
    }
    db.habits := UpdateWhere(db.habits, Owned(habitId.value, userId.value), HabitEdit(status, remindMe, doItAt, now));
    r := Ok(());
  }

  /**
   * update_habit leaves ids, owners, titles and the row count alone, changes
   * only the habit it addresses, and stores the request's status there, even
   * an absent one (which clears the status).
   */
  lemma UpdateHabitEffect(t: seq<Habit>, id: int, u: int, status: Option<string>, remindMe: Option<bool>,
                          doItAt: Option<string>, now: string)
    ensures var t' := UpdateWhere(t, Owned(id, u), HabitEdit(status, remindMe, doItAt, now));
            |t'| == |t|
            && (forall i :: 0 <= i < |t| ==> t'[i].id == t[i].id && t'[i].userId == t[i].userId && t'[i].title == t[i].title)
            && (forall i :: 0 <= i < |t| && (t[i].id != id || t[i].userId != Some(u)) ==> t'[i] == t[i])
            && (forall i :: 0 <= i < |t| && t[i].id == id && t[i].userId == Some(u) ==>
                  t'[i].status == status && t'[i].lastUpdated == Some(now))
    ensures UniqueBy(t, (x: Habit) => x.id) ==>
              UniqueBy(UpdateWhere(t, Owned(id, u), HabitEdit(status, remindMe, doItAt, now)), (x: Habit) => x.id)
  {
    if UniqueBy(t, (x: Habit) => x.id) {
      UpdateKeepsUnique(t, Owned(id, u), HabitEdit(status, remindMe, doItAt, now), (x: Habit) => x.id);
    }
  }

  /** The rewrite update_habit_status applies. */
  function StatusEdit(status: string, now: string): Habit -> Habit
  {
    (h: Habit) => h.(status := Some(status), lastUpdated := Some(now))
  }

  method UpdateHabitStatus(db: Db, userId: Option<int>, title: Option<string>, status: Option<string>, now: string)
    returns (r: Reply<()>)
    modifies db`habits
    ensures if GivenNum(userId) && GivenText(title) && GivenText(status)
            then r == Ok(()) && db.habits == UpdateWhere(old(db.habits), Titled(userId.value, title.value, None),
                                                         StatusEdit(status.value, now))
            else r == BadRequest("userId, title, and status required") && db.habits == old(db.habits)
  {
    if !(GivenNum(userId) && GivenText(title) && GivenText(status)) {
      return BadRequest("userId, title, and status required");
    }
    db.habits := UpdateWhere(db.habits, Titled(userId.value, title.value, None), StatusEdit(status.value, now));
    r := Ok(());
  }

  /** The user's habits with this title that are not completed yet. */
  function NewlyCompleted(u: int, title: string): Habit -> bool
  {
    (h: Habit) => h.userId == Some(u) && h.title == Some(title) && h.status != Some(Completed)
  }

  /**
   * Marking a title completed raises get_completed_habits' count by exactly
   * the number of that user's habits with the title that were not completed.
   */
  lemma CompleteThenCount(t: seq<Habit>, u: int, title: string, now: string)
    ensures var t' := UpdateWhere(t, Titled(u, title, None), StatusEdit(Completed, now));
            GetCompletedHabits(t', Some(u)).value == GetCompletedHabits(t, Some(u)).value + |Where(t, NewlyCompleted(u, title))|
  {
    var t' := UpdateWhere(t, Titled(u, title, None), StatusEdit(Completed, now));
    CompletedRowsAfter(t, u, title, now);
    CompletedCount(t, u);
    CompletedCount(t', u);
  }

  /** The count behind CompleteThenCount, on the filtered rows. */
  lemma CompletedRowsAfter(t: seq<Habit>, u: int, title: string, now: string)
    ensures var t' := UpdateWhere(t, Titled(u, title, None), StatusEdit(Completed, now));
            |Where(t', CompletedBy(u))| == |Where(t, CompletedBy(u))| + |Where(t, NewlyCompleted(u, title))|
  {
    CompletingCompletes(u, title, now);
    CountAfterUpdate(t, Titled(u, title, None), StatusEdit(Completed, now), CompletedBy(u), NewlyCompleted(u, title));
  }

  /** The facts about the three filters CompleteThenCount combines. */
  lemma CompletingCompletes(u: int, title: string, now: string)
    ensures forall x :: Titled(u, title, None)(x) ==> CompletedBy(u)(StatusEdit(Completed, now)(x))
    ensures forall x :: NewlyCompleted(u, title)(x) == (Titled(u, title, None)(x) && !CompletedBy(u)(x))
  {
  }

  /** get_completed_habits on a valid request, unfolded once. */
  lemma CompletedCount(t: seq<Habit>, u: int)
    ensures GetCompletedHabits(t, Some(u)) == Ok(|Where(t, CompletedBy(u))|)
  {
  }

  // ----- delete_habit -----

  method DeleteHabit(db: Db, id: Option<int>, userId: Option<int>) returns (r: Reply<()>)
    modifies db`habits
    ensures if id.Some? && userId.Some?
            then r == Ok(()) && db.habits == DeleteWhere(old(db.habits), Owned(id.value, userId.value))
            else r == BadRequest("id and userId required") && db.habits == old(db.habits)
  {
    if id.None? || userId.None? {
      return BadRequest("id and userId required");
    }
    db.habits := DeleteWhere(db.habits, Owned(id.value, userId.value));
    r := Ok(());
  }

  /**
   * After delete_habit the habit is gone from the user's list, and every other
   * habit of every user is still there.
   */
  lemma DeleteHabitEffect(t: seq<Habit>, id: int, u: int)
    ensures var t' := DeleteWhere(t, Owned(id, u));
            (forall h :: h in GetHabits(t', Some(u), None).value ==> h.id != id)
            && (forall h :: h in t && !(h.id == id && h.userId == Some(u)) ==> h in t')
  {
    DeleteMembers(t, Owned(id, u));
  }

  // ----- get_habit_by_title, check_habit_exists, get_completed_habits -----

  /** get_habit_by_title: the user's first habit with this title, or null. */
  function GetHabitByTitle(t: seq<Habit>, userId: Option<int>, title: Option<string>): (r: Reply<Option<Habit>>)
    ensures !(userId.Some? && GivenText(title)) <==> r == BadRequest("userId and title required")
    ensures r.Ok? || r.BadRequest?
    ensures r.Ok? && r.value.Some? ==> r.value.value in t && r.value.value.userId == Some(userId.value)
                                        && r.value.value.title == title
    ensures r.Ok? ==> (r.value.None? <==> forall i :: 0 <= i < |t| ==>
                         !(t[i].userId == Some(userId.value) && t[i].title == title))
  {
    if userId.None? || !GivenText(title) then BadRequest("userId and title required")
    else Ok(SelectOne(t, Titled(userId.value, title.value, None)))
  }

  /** check_habit_exists: whether the user has a habit with this title (and frequency, when given). */
  function CheckHabitExists(t: seq<Habit>, userId: Option<int>, title: Option<string>, frequency: Option<string>)
    : (r: Reply<bool>)
    ensures !(userId.Some? && GivenText(title)) <==> r == BadRequest("userId and title required")
    ensures r.Ok? || r.BadRequest?
    ensures r.Ok? ==> (r.value <==> exists i :: 0 <= i < |t| && Titled(userId.value, title.value, frequency)(t[i]))
  {
    if userId.None? || !GivenText(title) then BadRequest("userId and title required")
    else Ok(SelectOne(t, Titled(userId.value, title.value, frequency)).Some?)
  }

  /** Without a frequency, check_habit_exists says yes exactly when get_habit_by_title finds a habit. */
  lemma ExistsAgreesWithByTitle(t: seq<Habit>, userId: Option<int>, title: Option<string>)
    ensures var e := CheckHabitExists(t, userId, title, None);
            var b := GetHabitByTitle(t, userId, title);
            (e.BadRequest? <==> b.BadRequest?) && (e.Ok? ==> (e.value <==> b.value.Some?))
  {
  }

  /** get_completed_habits: how many of the user's habits have status "completed". */
  function GetCompletedHabits(t: seq<Habit>, userId: Option<int>): (r: Reply<nat>)
    ensures userId.None? <==> r == BadRequest("userId required")
    ensures r.Ok? || r.BadRequest?
    ensures r.Ok? ==> r.value <= |t|
    ensures r.Ok? ==> (r.value > 0 <==> exists i :: 0 <= i < |t| && CompletedBy(userId.value)(t[i]))
    ensures r.Ok? ==> r.value == |Positions(t, CompletedBy(userId.value))|
  {
    if userId.None? then BadRequest("userId required")
    else
      WhereEmpty(t, CompletedBy(userId.value));
      WhereSize(t, CompletedBy(userId.value));
      Ok(|Where(t, CompletedBy(userId.value))|)
  }
}
