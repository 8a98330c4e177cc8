/**
 * The `daily_moods` handlers (rise/rise-backend/api/routes/moods.py): at most
 * one mood per (user, date), the date stored in ISO form.
 *
 * `parse` stands for `datetime.fromisoformat(...).date()`: None where Python
 * raises. `now` stands for `datetime.now().isoformat()`.
 */
module Moods {
  import opened Wrappers
  import opened Store
  import opened Text
  import opened Sorting
  import opened Dates
  import opened Schema

  /** What the catch-all reply carries when the date cannot be parsed (the exception text is not modelled). */
  const InvalidDate: string := "Invalid isoformat string"

  /** A parser that reads back what `date.isoformat()` writes, as `fromisoformat` does. */
  ghost predicate ReadsIso(parse: string -> Option<Date>)
  {
    forall d: Date :: parse(IsoDate(d)) == Some(d)
  }

  /**
   * normalize_date: the first ten characters parsed as a date and written back
   * in ISO form. None where Python raises: a missing date or one that does not parse.
   */
  function NormalizeDate(parse: string -> Option<Date>, s: Option<string>): (r: Option<string>)
    ensures r.Some? <==> s.Some? && parse(Prefix(s.value, 10)).Some?
    ensures r.Some? ==> |r.value| == 10 && Split(r.value, '-') == IsoFields(parse(Prefix(s.value, 10)).value)
  {
    if s.None? then None
    else
      match parse(Prefix(s.value, 10))
      case None => None
      case Some(d) =>
        IsoDateLength(d);
        Some(IsoDate(d))
  }

  /** Normalizing a normalized date changes nothing. */
  lemma NormalizeIdempotent(parse: string -> Option<Date>, s: Option<string>)
    requires ReadsIso(parse)
    requires NormalizeDate(parse, s).Some?
    ensures NormalizeDate(parse, NormalizeDate(parse, s)) == NormalizeDate(parse, s)
  {
    var d := parse(Prefix(s.value, 10)).value;
    IsoDateLength(d);
    assert Prefix(IsoDate(d), 10) == IsoDate(d);
    assert parse(IsoDate(d)) == Some(d);
  }

  /** A normalized date is the ISO text of the date it was parsed as. */
  lemma NormalizeIsIso(parse: string -> Option<Date>, d: Date)
    requires ReadsIso(parse)
    ensures NormalizeDate(parse, Some(IsoDate(d))) == Some(IsoDate(d))
  {
    IsoDateLength(d);
    assert Prefix(IsoDate(d), 10) == IsoDate(d);
    assert parse(IsoDate(d)) == Some(d);
  }

  /** The filter {'user_id': u, 'date': d}. */
  function At(u: int, d: string): Mood -> bool
  {
    (m: Mood) => m.userId == u && m.date == d
  }

  /** The filter {'user_id': u}. */
  function OfUser(u: int): Mood -> bool
  {
    (m: Mood) => m.userId == u
  }

  function Key(m: Mood): (int, string)
  {
    (m.userId, m.date)
  }

  function DateOf(m: Mood): string
  {
    m.date
  }

  // ----- get_today_mood -----

  /** get_today_mood: the user's mood on that date, or null; the date is used as given. */
  function GetTodayMood(t: seq<Mood>, userId: Option<int>, date: Option<string>): (r: Reply<Option<Mood>>)
    ensures !(userId.Some? && GivenText(date)) <==> r == BadRequest("userId and date required")
    ensures r.Ok? || r.BadRequest?
    ensures r.Ok? && r.value.Some? ==> r.value.value in t && Key(r.value.value) == (userId.value, date.value)
    ensures r.Ok? ==> (r.value.None? <==> forall i :: 0 <= i < |t| ==> Key(t[i]) != (userId.value, date.value))
  {
    if userId.None? || !GivenText(date) then BadRequest("userId and date required")
    else Ok(SelectOne(t, At(userId.value, date.value)))
  }

  // ----- save_mood -----

  /** The table after save_mood for (u, d): image, label and updated_at rewritten, or a new row. */
  function MoodSaved(t: seq<Mood>, u: int, d: string, image: string, labelText: string, now: string): seq<Mood>
  {
    if SelectOne(t, At(u, d)).Some? then UpdateWhere(t, At(u, d), SetMood(image, labelText, now))
    else t + [Mood(u, d, image, labelText, now, now)]
  }

  /** The rewrite of an existing mood: created_at is kept. */
  function SetMood(image: string, labelText: string, now: string): Mood -> Mood
  {
    (m: Mood) => m.(moodImage := image, moodLabel := labelText, updatedAt := now)
  }

  /**
   * save_mood. The date is normalized before anything is checked, so a missing
   * or unparseable date ends in the catch-all error, not in the 400 reply.
   */
  method SaveMood(db: Db, parse: string -> Option<Date>, userId: Option<int>, date: Option<string>,
                  moodImage: Option<string>, moodLabel: Option<string>, now: string)
    returns (r: Reply<()>)
    modifies db`moods
    ensures var nd := NormalizeDate(parse, date);
            if nd.None? then r == ServerError(InvalidDate) && db.moods == old(db.moods)
            else if !(GivenNum(userId) && GivenText(moodImage) && GivenText(moodLabel))
            then r == BadRequest("Missing required fields") && db.moods == old(db.moods)
            else r == Ok(()) && db.moods == MoodSaved(old(db.moods), userId.value, nd.value, moodImage.value, moodLabel.value, now)
  {
    var nd := NormalizeDate(parse, date);
    if nd.None? {
      return ServerError(InvalidDate);
    }
    var d := nd.value;
    if !(GivenNum(userId) && d != "" && GivenText(moodImage) && GivenText(moodLabel)) {
      return BadRequest("Missing required fields");
    }
    var u := userId.value;
    var existing := SelectOne(db.moods, At(u, d));
    if existing.Some? {
      db.moods := UpdateWhere(db.moods, At(u, d), SetMood(moodImage.value, moodLabel.value, now));
    } else {
      db.moods := db.moods + [Mood(u, d, moodImage.value, moodLabel.value, now, now)];
    }
    r := Ok(());
  }

  /**
   * save_mood is an upsert: afterwards get_today_mood finds the new image and
   * label at (u, d), and created_at is that of the earlier mood when there was one.
   */
  lemma SaveThenToday(t: seq<Mood>, u: int, d: string, image: string, labelText: string, now: string)
    requires d != ""
    ensures var m := GetTodayMood(MoodSaved(t, u, d, image, labelText, now), Some(u), Some(d)).value;
            var before := GetTodayMood(t, Some(u), Some(d)).value;
            m.Some? && m.value.moodImage == image && m.value.moodLabel == labelText && m.value.updatedAt == now
            && m.value.createdAt == (if before.Some? then before.value.createdAt else now)
  {
    if SelectOne(t, At(u, d)).Some? {
      SelectOneAfterUpdate(t, At(u, d), SetMood(image, labelText, now));
    } else {
      SelectOneAfterAppend(t, Mood(u, d, image, labelText, now, now), At(u, d));
    }
  }

  /** save_mood keeps (user, date) a key: at most one new row per key. */
  lemma SaveKeepsKey(t: seq<Mood>, u: int, d: string, image: string, labelText: string, now: string)
    requires UniqueBy(t, Key)
    ensures UniqueBy(MoodSaved(t, u, d, image, labelText, now), Key)
    ensures |MoodSaved(t, u, d, image, labelText, now)| == |t| + (if SelectOne(t, At(u, d)).Some? then 0 else 1)
  {
    if SelectOne(t, At(u, d)).Some? {
      UpdateKeepsUnique(t, At(u, d), SetMood(image, labelText, now), Key);
    } else {
      var x := Mood(u, d, image, labelText, now, now);
      NoneSelected(t, At(u, d));
      AppendKeepsUnique(t, x, Key);
    }
  }

  // ----- delete_mood -----

  /**
   * delete_mood: the date is normalized first (a missing or unparseable one
   * ends in the catch-all error), then the user's mood on that date is removed.
   */
  method DeleteMood(db: Db, parse: string -> Option<Date>, userId: Option<int>, date: Option<string>)
    returns (r: Reply<()>)
    modifies db`moods
    ensures var nd := NormalizeDate(parse, date);
            if nd.None? then r == ServerError(InvalidDate) && db.moods == old(db.moods)
            else if userId.None? then r == BadRequest("userId and date required") && db.moods == old(db.moods)
            else r == Ok(()) && db.moods == DeleteWhere(old(db.moods), At(userId.value, nd.value))
  {
    var nd := NormalizeDate(parse, date);
    if nd.None? {
      return ServerError(InvalidDate);
    }
    if userId.None? || nd.value == "" {
      return BadRequest("userId and date required");
    }
    db.moods := DeleteWhere(db.moods, At(userId.value, nd.value));
    r := Ok(());
  }

  /** After delete_mood get_today_mood finds nothing for that date; moods of other dates or users stay. */
  lemma DeleteThenToday(t: seq<Mood>, u: int, d: string)
    requires d != ""
    ensures GetTodayMood(DeleteWhere(t, At(u, d)), Some(u), Some(d)) == Ok(None)
    ensures forall m :: m in t && Key(m) != (u, d) ==> m in DeleteWhere(t, At(u, d))
  {
    DeleteLeavesNoMatch(t, At(u, d));
    DeleteMembers(t, At(u, d));
  }

  // ----- get_all_moods -----

  /** get_all_moods: the user's moods, latest date first; moods with equal dates keep table order. */
  function GetAllMoods(t: seq<Mood>, userId: Option<int>): (r: Reply<seq<Mood>>)
    ensures userId.None? <==> r == BadRequest("userId required")
    ensures r.Ok? || r.BadRequest?
    ensures r.Ok? ==> multiset(r.value) == multiset(Where(t, OfUser(userId.value)))
    ensures r.Ok? ==> SortedDesc(r.value, DateOf)
    ensures r.Ok? ==> StableFor(r.value, Where(t, OfUser(userId.value)), DateOf)
  {
    if userId.None? then BadRequest("userId required")
    else
      var result := Where(t, OfUser(userId.value));
      SortDescSorted(result, DateOf);
      SortDescStable(result, DateOf);
      Ok(if result != [] then SortDesc(result, DateOf) else result)
  }

  // ----- get_moods_by_month -----

  /** The date test of get_moods_by_month: three '-'-separated parts, year and zero-padded month equal. */
  function InMonth(year: string, month: string): Mood -> bool
  {
    (m: Mood) => m.date != "" && |Split(m.date, '-')| == 3
                 && Split(m.date, '-')[0] == year && Split(m.date, '-')[1] == ZFill(month, 2)
  }

  /** The user's moods in the month, in table order. */
  function InUserMonth(u: int, year: string, month: string): Mood -> bool
  {
    (m: Mood) => m.userId == u && InMonth(year, month)(m)
  }

  /** The moods get_moods_by_month answers with. */
  function MoodsInMonth(t: seq<Mood>, u: int, year: string, month: string): (r: seq<Mood>)
    ensures forall m :: m in r <==> m in t && m.userId == u && InMonth(year, month)(m)
  {
    WhereMembers(t, InUserMonth(u, year, month));
    Where(t, InUserMonth(u, year, month))
  }

  /** get_moods_by_month, with the source's filtering loop over the user's moods. */
  method GetMoodsByMonth(t: seq<Mood>, userId: Option<int>, month: Option<string>, year: Option<string>)
    returns (r: Reply<seq<Mood>>)
    ensures !(userId.Some? && GivenText(month) && GivenText(year)) <==> r == BadRequest("userId, month, and year required")
    ensures r.Ok? ==> r.value == MoodsInMonth(t, userId.value, year.value, month.value)
  {
    if userId.None? || !GivenText(month) || !GivenText(year) {
      return BadRequest("userId, month, and year required");
    }
    var u, mo, y := userId.value, month.value, year.value;
    var result := Where(t, OfUser(u));
    if result != [] {
      var filtered: seq<Mood> := [];
      var i := 0;
      while i < |result|
        invariant 0 <= i <= |result|
        invariant filtered == Where(result[..i], InMonth(y, mo))
      {
        var mood := result[i];
        WhereSnoc(result, i, InMonth(y, mo));
        var moodDate := mood.date;
        if moodDate != "" {
          var parts := Split(moodDate, '-');
          if |parts| == 3 {
            if parts[0] == y && parts[1] == ZFill(mo, 2) {
              filtered := filtered + [mood];
            }
          }
        }
        i := i + 1;
      }
      assert result[..|result|] == result;
      result := filtered;
    }
    WhereWhere(t, OfUser(u), InMonth(y, mo), InUserMonth(u, y, mo));
    r := Ok(result);
  }

  /**
   * A mood stored under a normalized date passes the month test for that
   * date's year and month, whether the month is asked for as "3" or as "03".
   */
  lemma NormalizedInMonth(parse: string -> Option<Date>, date: string, m: Mood)
    requires NormalizeDate(parse, Some(date)).Some?
    requires m.date == NormalizeDate(parse, Some(date)).value
    ensures var d := parse(Prefix(date, 10)).value;
            InMonth(ZFill(Dec(d.year), 4), Dec(d.month))(m)
            && InMonth(ZFill(Dec(d.year), 4), ZFill(Dec(d.month), 2))(m)
  {
    var d := parse(Prefix(date, 10)).value;
    assert Split(m.date, '-') == IsoFields(d);
    ZFillIdempotent(Dec(d.month), 2);
  }

  /**
   * A mood saved for a date is listed for that date's year and month, whether
   * the month is asked for as "3" or as "03".
   */
  lemma SavedMoodInItsMonth(parse: string -> Option<Date>, t: seq<Mood>, u: int, date: string,
                            image: string, labelText: string, now: string)
    requires NormalizeDate(parse, Some(date)).Some?
    ensures var d := parse(Prefix(date, 10)).value;
            var t' := MoodSaved(t, u, NormalizeDate(parse, Some(date)).value, image, labelText, now);
            var listed := MoodsInMonth(t', u, ZFill(Dec(d.year), 4), Dec(d.month));
            var listed2 := MoodsInMonth(t', u, ZFill(Dec(d.year), 4), ZFill(Dec(d.month), 2));
            exists m :: m in listed && m in listed2 && m.moodImage == image && m.moodLabel == labelText
  {
    var d := parse(Prefix(date, 10)).value;
    var iso := NormalizeDate(parse, Some(date)).value;
    var t' := MoodSaved(t, u, iso, image, labelText, now);
    SaveThenToday(t, u, iso, image, labelText, now);
    var m := GetTodayMood(t', Some(u), Some(iso)).value.value;
    assert m in t' && m.userId == u && m.date == iso;
    NormalizedInMonth(parse, date, m);
    assert m in MoodsInMonth(t', u, ZFill(Dec(d.year), 4), Dec(d.month));
    assert m in MoodsInMonth(t', u, ZFill(Dec(d.year), 4), ZFill(Dec(d.month), 2));
  }
}
