/**
 * The `journals` handlers (rise/rise-backend/api/routes/journals.py): a user's
 * entries listed newest date first, optionally narrowed to one month, and
 * added, rewritten and deleted by (id, user).
 *
 * `parse` stands for `datetime.fromisoformat`, reduced to the calendar date:
 * None where Python raises.
 */
module Journals {
  import opened Wrappers
  import opened Store
  import opened Text
  import opened Sorting
  import opened Dates
  import opened Schema

  /** What the catch-all reply carries when two entries cannot be ordered because a date is null. */
  const UnorderableDates: string := "'<' not supported between instances of 'NoneType' and 'str'"
  /** What it carries when the month filter meets a null date. */
  const NullDate: string := "'NoneType' object has no attribute 'replace'"
  /** What it carries when the month filter meets a date that does not parse. */
  const InvalidDate: string := "Invalid isoformat string"

  function IdOf(j: Journal): int
  {
    j.id
  }

  /** The filter {'user_id': u}. */
  function OfUser(u: int): Journal -> bool
  {
    (j: Journal) => j.userId == Some(u)
  }

  /** The filter {'id': id, 'user_id': u}. */
  function Owned(id: int, u: int): Journal -> bool
  {
    (j: Journal) => j.id == id && j.userId == Some(u)
  }

  /** The sort key `x.get('date', '')`. */
  function DateKey(j: Journal): string
  {
    j.date.GetOr("")
  }

  // ----- get_journals -----

  /**
   * Sorting raises when it compares a null date, which it does as soon as
   * there are two entries and one of them has no date.
   */
  predicate Unorderable(s: seq<Journal>)
    ensures |s| <= 1 ==> !Unorderable(s)
    ensures (forall i :: 0 <= i < |s| ==> s[i].date.Some?) ==> !Unorderable(s)
  {
    |s| >= 2 && exists i :: 0 <= i < |s| && s[i].date.None?
  }

  /** The date of an entry as the month filter reads it: 'Z' spelled "+00:00", then parsed. */
  function ReadDate(parse: string -> Option<Date>, j: Journal): (r: Option<Date>)
    ensures j.date.None? ==> r.None?
    ensures j.date.Some? && 'Z' !in j.date.value ==> r == parse(j.date.value)
  {
    if j.date.None? then None else parse(ReplaceChar(j.date.value, 'Z', "+00:00"))
  }

  /** An entry the month filter raises on. */
  function Unreadable(parse: string -> Option<Date>): Journal -> bool
  {
    (j: Journal) => ReadDate(parse, j).None?
  }

  /** Some entry of user u has a date the month filter cannot read. */
  predicate HasUnreadable(t: seq<Journal>, parse: string -> Option<Date>, u: int)
  {
    exists i :: 0 <= i < |t| && t[i].userId == Some(u) && ReadDate(parse, t[i]).None?
  }

  /** The month filter: the parsed date has that month and that year. */
  function InMonth(parse: string -> Option<Date>, month: int, year: int): (r: Journal -> bool)
    ensures forall j :: Unreadable(parse)(j) ==> !r(j)
    ensures !(1 <= month <= 12) ==> forall j :: !r(j)
  {
    (j: Journal) => ReadDate(parse, j).Some? && ReadDate(parse, j).value.month == month
                    && ReadDate(parse, j).value.year == year
  }

  /** The user's entries in the month. */
  function InUserMonth(parse: string -> Option<Date>, u: int, month: int, year: int): Journal -> bool
  {
    (j: Journal) => j.userId == Some(u) && InMonth(parse, month, year)(j)
  }

  /** The month filter runs only when both month and year are given. */
  predicate Filtered(month: Option<int>, year: Option<int>)
  {
    month.Some? && year.Some?
  }

  /**
   * get_journals: the user's entries, latest date first (equal dates in table
   * order), narrowed to one month when month and year are both given.
   */
  function GetJournals(t: seq<Journal>, parse: string -> Option<Date>, userId: Option<int>,
                       month: Option<int>, year: Option<int>): (r: Reply<seq<Journal>>)
    ensures userId.None? <==> r == BadRequest("userId required")
    ensures r.Ok? || r.BadRequest? || r.ServerError?
    ensures r.ServerError? <==>
              userId.Some? && (Unorderable(Where(t, OfUser(userId.value)))
                || (Filtered(month, year) && HasUnreadable(t, parse, userId.value)))
    ensures r.Ok? ==> SortedDesc(r.value, DateKey)
    ensures r.Ok? && !Filtered(month, year) ==>
              multiset(r.value) == multiset(Where(t, OfUser(userId.value)))
              && StableFor(r.value, Where(t, OfUser(userId.value)), DateKey)
    ensures r.Ok? && Filtered(month, year) ==>
              multiset(r.value) == multiset(Where(t, InUserMonth(parse, userId.value, month.value, year.value)))
  {
    if userId.None? then BadRequest("userId required")
    else
      ListingErrors(t, parse, userId.value, month, year);
      ListingOk(t, parse, userId.value, month, year);
      ListEntries(Where(t, OfUser(userId.value)), parse, month, year)
  }

  /** When the sort and the month filter raise. */
  lemma ListingErrors(t: seq<Journal>, parse: string -> Option<Date>, u: int, month: Option<int>, year: Option<int>)
    ensures var r := ListEntries(Where(t, OfUser(u)), parse, month, year);
            (r.Ok? || r.ServerError?)
            && (r.ServerError? <==>
                  Unorderable(Where(t, OfUser(u)))
                  || (Filtered(month, year) && HasUnreadable(t, parse, u)))
  {
    var mine := Where(t, OfUser(u));
    if !Unorderable(mine) && Filtered(month, year) {
      var sorted := SortDesc(mine, DateKey);
      SameEntries(t, u, sorted);
      UnreadableListed(t, parse, u, sorted);
    }
  }

  /** What a successful listing holds, and in which order. */
  lemma ListingOk(t: seq<Journal>, parse: string -> Option<Date>, u: int, month: Option<int>, year: Option<int>)
    ensures var r := ListEntries(Where(t, OfUser(u)), parse, month, year);
            (r.Ok? ==> SortedDesc(r.value, DateKey))
            && (r.Ok? && !Filtered(month, year) ==>
                  multiset(r.value) == multiset(Where(t, OfUser(u)))
                  && StableFor(r.value, Where(t, OfUser(u)), DateKey))
            && (r.Ok? && Filtered(month, year) ==>
                  multiset(r.value) == multiset(Where(t, InUserMonth(parse, u, month.value, year.value))))
  {
    var mine := Where(t, OfUser(u));
    var sorted := SortDesc(mine, DateKey);
    SortDescSorted(mine, DateKey);
    SortDescStable(mine, DateKey);
    if Filtered(month, year) {
      WhereKeepsSorted(sorted, DateKey, InMonth(parse, month.value, year.value));
      WherePerm(sorted, mine, InMonth(parse, month.value, year.value));
      WhereWhere(t, OfUser(u), InMonth(parse, month.value, year.value),
                 InUserMonth(parse, u, month.value, year.value));
    }
  }

  /** What get_journals does with the user's entries once they are fetched: sort, then filter. */
  function ListEntries(mine: seq<Journal>, parse: string -> Option<Date>,
                       month: Option<int>, year: Option<int>): Reply<seq<Journal>>
  {
    if Unorderable(mine) then ServerError(UnorderableDates)
    else
      var sorted := SortDesc(mine, DateKey);
      if Filtered(month, year) then
        var k := FirstIndex(sorted, Unreadable(parse));
        if k < |sorted| then ServerError(if sorted[k].date.None? then NullDate else InvalidDate)
        else Ok(Where(sorted, InMonth(parse, month.value, year.value)))
      else Ok(sorted)
  }

  /** A reordering of the user's entries holds the same entries. */
  lemma SameEntries(t: seq<Journal>, u: int, sorted: seq<Journal>)
    requires multiset(sorted) == multiset(Where(t, OfUser(u)))
    ensures forall x :: x in sorted <==> x in t && x.userId == Some(u)
  {
    var mine := Where(t, OfUser(u));
    WhereMembers(t, OfUser(u));
    forall x ensures x in sorted <==> x in mine {
      assert x in sorted <==> x in multiset(sorted);
      assert x in mine <==> x in multiset(mine);
    }
  }

  /**
   * The month filter raises somewhere in a reordering of the user's entries
   * exactly when one of the user's entries has an unreadable date.
   */
  lemma UnreadableListed(t: seq<Journal>, parse: string -> Option<Date>, u: int, sorted: seq<Journal>)
    requires forall x :: x in sorted <==> x in t && x.userId == Some(u)
    ensures FirstIndex(sorted, Unreadable(parse)) < |sorted| <==> HasUnreadable(t, parse, u)
  {
    var k := FirstIndex(sorted, Unreadable(parse));
    if k < |sorted| {
      var i :| 0 <= i < |t| && t[i] == sorted[k];
      assert t[i].userId == Some(u) && ReadDate(parse, t[i]).None?;
    }
    forall i | 0 <= i < |t| && t[i].userId == Some(u) && ReadDate(parse, t[i]).None?
      ensures k < |sorted|
    {
      var j :| 0 <= j < |sorted| && sorted[j] == t[i];
      assert Unreadable(parse)(sorted[j]);
      assert k <= j;
    }
  }

  /** With month and year given, the answer is the unfiltered listing narrowed to the month, in the same order. */
  lemma FilterNarrowsListing(t: seq<Journal>, parse: string -> Option<Date>, u: int, month: int, year: int)
    requires GetJournals(t, parse, Some(u), Some(month), Some(year)).Ok?
    ensures GetJournals(t, parse, Some(u), None, None).Ok?
    ensures GetJournals(t, parse, Some(u), Some(month), Some(year)).value
            == Where(GetJournals(t, parse, Some(u), None, None).value, InMonth(parse, month, year))
  {
  }

  /** The listing holds exactly the user's entries, and with month and year given, those of the month. */
  lemma ListingMembers(t: seq<Journal>, parse: string -> Option<Date>, u: int, month: Option<int>, year: Option<int>)
    requires GetJournals(t, parse, Some(u), month, year).Ok?
    ensures var r := GetJournals(t, parse, Some(u), month, year).value;
            forall x :: x in r <==> x in t && x.userId == Some(u)
                                    && (Filtered(month, year) ==> InMonth(parse, month.value, year.value)(x))
  {
    var sorted := SortDesc(Where(t, OfUser(u)), DateKey);
    SameEntries(t, u, sorted);
    if Filtered(month, year) {
      WhereMembers(sorted, InMonth(parse, month.value, year.value));
    }
  }

  /** An entry of the user whose date reads as a day of the month is listed for that month. */
  lemma ListedInItsMonth(t: seq<Journal>, parse: string -> Option<Date>, u: int, i: nat)
    requires i < |t| && t[i].userId == Some(u) && ReadDate(parse, t[i]).Some?
    requires var d := ReadDate(parse, t[i]).value;
             GetJournals(t, parse, Some(u), Some(d.month), Some(d.year)).Ok?
    ensures var d := ReadDate(parse, t[i]).value;
            t[i] in GetJournals(t, parse, Some(u), Some(d.month), Some(d.year)).value
  {
    var d := ReadDate(parse, t[i]).value;
    ListingMembers(t, parse, u, Some(d.month), Some(d.year));
  }

  // ----- add_journal -----

  /** The row add_journal inserts: the request values as given, under a new id. */
  function NewJournal(t: seq<Journal>, userId: Option<int>, date: Option<string>, time: Option<string>,
                      voicePath: Option<string>, content: JournalContent): (j: Journal)
    ensures forall x :: x in t ==> x.id != j.id
  {
    Journal(NextId(t, IdOf), userId, date, time, voicePath, content)
  }

  /**
   * add_journal: no field is checked; the row is inserted and its id answered,
   * or None when the store does not echo the inserted row (`echoed`).
   */
  method AddJournal(db: Db, userId: Option<int>, date: Option<string>, time: Option<string>,
                    voicePath: Option<string>, content: JournalContent, echoed: bool)
    returns (r: Reply<Option<int>>)
    modifies db`journals
    ensures var j := NewJournal(old(db.journals), userId, date, time, voicePath, content);
            db.journals == old(db.journals) + [j] && r == Ok(if echoed then Some(j.id) else None)
  {
    var row := NewJournal(db.journals, userId, date, time, voicePath, content);
    db.journals := db.journals + [row];
    r := Ok(if echoed then Some(row.id) else None);
  }

  /**
   * When every entry of the user has a date, an entry added with a date joins
   * the user's listing and nothing else does; ids stay unique.
   */
  lemma AddThenList(t: seq<Journal>, parse: string -> Option<Date>, u: int, date: string, time: Option<string>,
                    voicePath: Option<string>, content: JournalContent)
    requires forall i :: 0 <= i < |t| && t[i].userId == Some(u) ==> t[i].date.Some?
    ensures var j := NewJournal(t, Some(u), Some(date), time, voicePath, content);
            var before := GetJournals(t, parse, Some(u), None, None);
            var after := GetJournals(t + [j], parse, Some(u), None, None);
            before.Ok? && after.Ok? && multiset(after.value) == multiset(before.value) + multiset{j}
    ensures UniqueBy(t, IdOf) ==> UniqueBy(t + [NewJournal(t, Some(u), Some(date), time, voicePath, content)], IdOf)
  {
    var j := NewJournal(t, Some(u), Some(date), time, voicePath, content);
    var mine := Where(t, OfUser(u));
    AppendMatching(t, j, OfUser(u));
    WhereMembers(t, OfUser(u));
    forall k | 0 <= k < |mine| ensures mine[k].date.Some? {
      assert mine[k] in t;
    }
    assert !Unorderable(mine);
    assert !Unorderable(mine + [j]);
    if UniqueBy(t, IdOf) {
      AppendKeepsUnique(t, j, IdOf);
    }
  }

  // ----- update_journal -----

  /** The rewrite of update_journal: all nine content columns, absent values written as null. */
  function SetContent(c: JournalContent): Journal -> Journal
  {
    (j: Journal) => j.(content := c)
  }

  /** update_journal: the content of the user's entry with that id is replaced. */
  method UpdateJournal(db: Db, id: Option<int>, userId: Option<int>, content: JournalContent)
    returns (r: Reply<()>)
    modifies db`journals
    ensures !(GivenNum(id) && GivenNum(userId)) ==>
              r == BadRequest("id and userId required") && db.journals == old(db.journals)
    ensures GivenNum(id) && GivenNum(userId) ==>
              r == Ok(()) && db.journals == UpdateWhere(old(db.journals), Owned(id.value, userId.value), SetContent(content))
  {
    if !GivenNum(id) || !GivenNum(userId) {
      return BadRequest("id and userId required");
    }
    db.journals := UpdateWhere(db.journals, Owned(id.value, userId.value), SetContent(content));
    r := Ok(());
  }

  /**
   * update_journal rewrites the content of the entry (id, u) and nothing
   * else: ids, owners, dates and times stay, and ids stay unique.
   */
  lemma UpdateJournalScope(t: seq<Journal>, id: int, u: int, c: JournalContent)
    ensures var t' := UpdateWhere(t, Owned(id, u), SetContent(c));
            forall i :: 0 <= i < |t| ==>
              t'[i].id == t[i].id && t'[i].userId == t[i].userId && t'[i].date == t[i].date && t'[i].time == t[i].time
              && t'[i].content == (if t[i].id == id && t[i].userId == Some(u) then c else t[i].content)
    ensures UniqueBy(t, IdOf) ==> UniqueBy(UpdateWhere(t, Owned(id, u), SetContent(c)), IdOf)
  {
    if UniqueBy(t, IdOf) {
      UpdateKeepsUnique(t, Owned(id, u), SetContent(c), IdOf);
    }
  }

  /** update_journal for user u leaves what get_journals answers for every other user as it was. */
  lemma UpdateJournalLeavesOthers(t: seq<Journal>, parse: string -> Option<Date>, id: int, u: int, c: JournalContent,
                                  v: int, month: Option<int>, year: Option<int>)
    requires v != u
    ensures GetJournals(UpdateWhere(t, Owned(id, u), SetContent(c)), parse, Some(v), month, year)
            == GetJournals(t, parse, Some(v), month, year)
  {
    UpdateElsewhere(t, Owned(id, u), SetContent(c), OfUser(v));
  }

  // ----- delete_journal -----

  /** delete_journal: the user's entry with that id is removed. */
  method DeleteJournal(db: Db, id: Option<int>, userId: Option<int>)
    returns (r: Reply<()>)
    modifies db`journals
    ensures !(id.Some? && userId.Some?) ==>
              r == BadRequest("id and userId required") && db.journals == old(db.journals)
    ensures id.Some? && userId.Some? ==>
              r == Ok(()) && db.journals == DeleteWhere(old(db.journals), Owned(id.value, userId.value))
  {
    if id.None? || userId.None? {
      return BadRequest("id and userId required");
    }
    db.journals := DeleteWhere(db.journals, Owned(id.value, userId.value));
    r := Ok(());
  }

  /**
   * After delete_journal the user's listing no longer holds an entry with
   * that id, every other row stays, and another user's listing is unchanged.
   */
  lemma DeleteThenList(t: seq<Journal>, parse: string -> Option<Date>, id: int, u: int,
                       v: int, month: Option<int>, year: Option<int>)
    requires v != u
    ensures var r := GetJournals(DeleteWhere(t, Owned(id, u)), parse, Some(u), month, year);
            r.Ok? ==> forall k :: 0 <= k < |r.value| ==> r.value[k].id != id
    ensures forall x :: x in t && !Owned(id, u)(x) ==> x in DeleteWhere(t, Owned(id, u))
    ensures GetJournals(DeleteWhere(t, Owned(id, u)), parse, Some(v), month, year)
            == GetJournals(t, parse, Some(v), month, year)
  {
    var d := DeleteWhere(t, Owned(id, u));
    DeleteMembers(t, Owned(id, u));
    DeleteElsewhere(t, Owned(id, u), OfUser(v));
    var r := GetJournals(d, parse, Some(u), month, year);
    if r.Ok? {
      var p := if Filtered(month, year) then InUserMonth(parse, u, month.value, year.value) else OfUser(u);
      WhereMembers(d, p);
      forall k | 0 <= k < |r.value| ensures r.value[k].id != id {
        assert r.value[k] in multiset(Where(d, p));
        assert r.value[k] in d;
      }
    }
  }
}
