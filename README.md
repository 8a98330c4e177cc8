# rise backend: per-user table handlers

This project is a Dafny model of the request handlers of the "rise" wellness app
backend. Each handler reads the request, checks the fields it needs, and reads or
writes one or two tables of the store. The handlers covered are:

- `users`: register, login, profile, password, stars, points.
- `home_status`: water count and detox progress per day.
- `habits`.
- `daily_moods`.
- `journals`.
- `plant_progress`.
- `app_locks`.
- `articles`, which are read only.

Modules:

- `Store` (store.dfy) models the four store helpers.
  - A table is a sequence of rows.
  - `select` is `Where`.
  - `select(..., single=True)` is `SelectOne`, the first row `Where` answers.
  - `update` is `UpdateWhere`; `delete` is `DeleteWhere`.
  - An insert appends a row.
- `Schema` (schema.dfy) holds:
  - one row type per table;
  - the class `Db` with one field per table;
  - the `Reply` a handler answers with: success, 400, 404, 401 or the catch-all 500;
  - Python's truthiness of request values. `GivenText` is a string that is present and not empty. `GivenNum` is a number that is present and not 0.
- `Home`, `Auth`, `Habits`, `Moods`, `Journals`, `PlantProgress`, `AppLocks` and `Articles` hold one module per handler file.
  - A handler that writes the store is a method.
    - It `modifies` only the tables it writes.
    - Its postcondition gives the reply and the new table as a function of the old table. Examples are `Saved`, `Incremented`, `LockSaved` and `MoodSaved`.
    - Lemmas state what that function means: what the read handlers answer afterwards, which rows stay, and which keys stay unique.
  - A handler that only reads is a function.
  - Two read handlers gather their answer in a loop, `get_range` and `get_moods_by_month`. Each is a method whose loop is proved to build `Where` over the table.
- `Sorting` (sorting.dfy) models Python's stable `sort(reverse=True)` on string keys.
  - It is an insertion sort.
  - It is proved to give a descending permutation that keeps equal keys in table order.
  - It is proved to be the only such ordering.
- `Text` (text.dfy) models Python string comparison, `zfill`, `split`, `replace` and `str(n)`.
- `Dates` (dates.dfy) models `date.isoformat()`.

Values that come from outside the handler are parameters:

- `now`, the current timestamp;
- `parse`, which stands for `datetime.fromisoformat` and answers None where Python raises;
- `echoed`, which says whether the store answered the inserted row.

## Model

| member | source | states |
|---|---|---|
| Store.Where | rise/rise-backend/api/database.py:19-25 | select with equality filters answers only matching rows, never more rows than the table |
| Store.SelectOne | rise/rise-backend/api/database.py:19-25 | select with single=True answers the first matching row, or None when no row matches |
| Store.FirstIndex | rise/rise-backend/api/database.py:25 | the position of the first match: nothing before it matches, it matches or is past the end |
| Store.UpdateWhere | rise/rise-backend/api/database.py:31-36 | update rewrites exactly the matching rows and keeps every other row and the row count |
| Store.DeleteWhere | rise/rise-backend/api/database.py:38-43 | delete leaves no matching row and removes exactly as many rows as match |
| Store.NextId | rise/rise-backend/api/database.py:27-29 | a new identity is larger than every id already in the table |
| Store.WhereMembers | rise/rise-backend/api/database.py:19-25 | a row is selected exactly when it is in the table and matches |
| Store.WhereEmpty | rise/rise-backend/api/database.py:19-25 | nothing is selected exactly when no row matches |
| Store.WhereWhere | rise/rise-backend/api/database.py:21-23 | filtering twice equals filtering once by both conditions, in table order |
| Store.WhereAppend | rise/rise-backend/api/database.py:19-25 | selection distributes over concatenation of tables |
| Store.AppendMatching | rise/rise-backend/api/database.py:27-29 | an inserted row that matches the filter is selected last |
| Store.AppendElsewhere | rise/rise-backend/api/database.py:27-29 | an inserted row that does not match leaves the selection unchanged |
| Store.SelectOneAfterAppend | rise/rise-backend/api/database.py:27-29 | inserting a matching row into a table without a match makes it the single-select answer |
| Store.NoneSelected | rise/rise-backend/api/database.py:25 | a None single-select means no row of the table matches |
| Store.SelectOneAfterUpdate | rise/rise-backend/api/database.py:31-36 | after an update that keeps rows matching, single-select answers the rewritten first match, or None as before |
| Store.SelectOneUnique | rise/rise-backend/api/database.py:19-25 | in a key-unique table a key filter single-selects the one row with that key |
| Store.UpdateKeepsUnique | rise/rise-backend/api/database.py:31-36 | an update that keeps keys keeps a key-unique table key-unique |
| Store.UpdateOneKeepsUnique | rise/rise-backend/api/database.py:31-36 | updating the single row that may hold key k, possibly to key k, keeps the table key-unique |
| Store.AppendKeepsUnique | rise/rise-backend/api/database.py:27-29 | inserting a row with a fresh key keeps the table key-unique |
| Store.DeleteKeepsUnique | rise/rise-backend/api/database.py:38-43 | deleting keeps a key-unique table key-unique |
| Store.DeleteMembers | rise/rise-backend/api/database.py:38-43 | a row survives a delete exactly when it is in the table and does not match |
| Store.DeleteLeavesNoMatch | rise/rise-backend/api/database.py:38-43 | after a delete, select with the same filter finds nothing |
| Store.CountAfterUpdate | rise/rise-backend/api/database.py:31-36 | after an update, the rows matching q grow by exactly the updated rows that did not match q before |
| Store.UpdateElsewhere | rise/rise-backend/api/database.py:31-36 | an update of rows outside filter q leaves q's selection unchanged |
| Store.DeleteElsewhere | rise/rise-backend/api/database.py:38-43 | a delete of rows outside filter q leaves q's selection unchanged |
| Store.WhereCount | rise/rise-backend/api/database.py:19-25 | selection keeps every copy of a matching row and no copy of another |
| Store.WhereSize | rise/rise-backend/api/database.py:19-25 | select answers as many rows as there are positions whose row matches |
| Store.WherePerm | rise/rise-backend/api/database.py:19-25 | filtering two orderings of the same rows gives two orderings of the same rows |
| Sorting.Insert | rise/rise-backend/api/routes/journals.py:28 | insertion adds exactly one copy of the row |
| Sorting.SortDesc | rise/rise-backend/api/routes/journals.py:28 | the sort is a permutation of its input |
| Sorting.InsertSorted | rise/rise-backend/api/routes/journals.py:28 | inserting into a descending sequence keeps it descending |
| Sorting.SortDescSorted | rise/rise-backend/api/routes/journals.py:28 | sort(reverse=True) gives keys in descending Python string order |
| Sorting.InsertStable | rise/rise-backend/api/routes/journals.py:28 | the inserted row goes in front of every row with the same key |
| Sorting.SortDescStable | rise/rise-backend/api/routes/journals.py:28 | rows with equal keys keep their table order |
| Sorting.HeadIsMax | rise/rise-backend/api/routes/journals.py:28 | the first row of a descending sequence has the greatest key |
| Sorting.SortedStableUnique | rise/rise-backend/api/routes/journals.py:28 | two descending orderings that keep equal keys in the same order are equal |
| Sorting.SortDescUnique | rise/rise-backend/api/routes/journals.py:28 | any descending, stable reordering of the rows is the sort's answer |
| Sorting.WhereKeepsSorted | rise/rise-backend/api/routes/journals.py:31-38 | filtering a sorted listing keeps it sorted |
| Text.LexLe | rise/rise-backend/api/routes/home.py:223 | reference definition of Python's `<=` on str, code point by code point; a prefix sorts first |
| Text.LexLeRefl | rise/rise-backend/api/routes/home.py:223 | Python string <= is reflexive |
| Text.LexLeAntisym | rise/rise-backend/api/routes/home.py:223 | Python string <= is antisymmetric |
| Text.LexLeTrans | rise/rise-backend/api/routes/home.py:223 | Python string <= is transitive |
| Text.LexLeTotal | rise/rise-backend/api/routes/home.py:223 | any two strings are ordered one way or the other |
| Text.Prefix | rise/rise-backend/api/routes/moods.py:8 | s[:n] has length min(len(s), n) and is a prefix of s |
| Text.ZFill | rise/rise-backend/api/routes/moods.py:163 | zfill pads to the width and never shortens |
| Text.ZFillUnsigned | rise/rise-backend/api/routes/moods.py:163 | an unsigned string is padded with zeros in front and kept as the tail |
| Text.ZFillIdempotent | rise/rise-backend/api/routes/moods.py:163 | padding twice to one width equals padding once |
| Text.Split | rise/rise-backend/api/routes/moods.py:159 | split answers at least one piece, and no piece holds the separator |
| Text.JoinSplit | rise/rise-backend/api/routes/moods.py:159 | joining the pieces of a split gives back the string |
| Text.SplitConcat | rise/rise-backend/api/routes/moods.py:159 | a separator-free prefix glues onto the first piece of the rest |
| Text.SplitJoin | rise/rise-backend/api/routes/moods.py:159 | splitting joined separator-free pieces gives back the pieces |
| Text.Dec | rise/rise-backend/api/routes/moods.py:8 | str(n) of a non-negative int is a non-empty string of digits |
| Text.DecLength | rise/rise-backend/api/routes/moods.py:8 | a number below 10^k has at most k digits |
| Text.ReplaceChar | rise/rise-backend/api/routes/journals.py:36 | after replacing c by a string without c, no c is left; a string without c is unchanged |
| Dates.IsoDate | rise/rise-backend/api/routes/moods.py:8 | isoformat() splits on '-' into the 4-digit year, 2-digit month and 2-digit day |
| Dates.IsoDateLength | rise/rise-backend/api/routes/moods.py:8 | isoformat() of a valid date is 10 characters long |
| Dates.PaddedDecHasNoDash | rise/rise-backend/api/routes/moods.py:8 | a zero-padded number holds digits only, so no '-' |
| Dates.PaddedWidth | rise/rise-backend/api/routes/moods.py:8 | a number below 10^w pads to exactly w characters |
| Home.GetStatus | rise/rise-backend/api/routes/home.py:8-38 | 400 exactly when userId or date is missing; defaults (0, 8, 0.0) exactly when no row has that (user, date); otherwise a stored row with that key |
| Home.SaveStatus | rise/rise-backend/api/routes/home.py:41-82 | with userId, date and a non-empty status, the table becomes the upsert Saved; otherwise 400 and no write |
| Home.IncrementWater | rise/rise-backend/api/routes/home.py:85-124 | with userId and date, the table becomes Incremented (rewrite to count + 1, or insert (1, 8, 0.0)); otherwise 400 and no write |
| Home.DecrementWater | rise/rise-backend/api/routes/home.py:127-158 | with userId and date, the table becomes Decremented; otherwise 400 and no write |
| Home.UpdateDetox | rise/rise-backend/api/routes/home.py:161-200 | with userId, date and detoxProgress, the table becomes the upsert DetoxUpdated; otherwise 400 and no write |
| Home.GetRange | rise/rise-backend/api/routes/home.py:203-235 | 400 exactly when a parameter is missing; else the loop answers exactly the user's rows with start <= date <= end, in table order |
| Home.SaveStatusUpserts | rise/rise-backend/api/routes/home.py:53-76 | save_status adds a row exactly when (user, date) had none, leaves other keys' rows alone, and keeps (user, date) a key |
| Home.SaveStatusWritesRow | rise/rise-backend/api/routes/home.py:59-76 | afterwards every row at (user, date) holds the request values, with 0, 8 and 0.0 for keys left out |
| Home.SaveThenGet | rise/rise-backend/api/routes/home.py:41-82 | after save_status, get_status answers the saved values |
| Home.IncrementWaterAddsOne | rise/rise-backend/api/routes/home.py:96-118 | the water count get_status reports rises by exactly one |
| Home.IncrementedExisting | rise/rise-backend/api/routes/home.py:102-109 | an existing row gets one more glass and nothing else changes |
| Home.IncrementedFresh | rise/rise-backend/api/routes/home.py:110-118 | without a row for the day, the row is created as (1, 8, 0.0) |
| Home.IncrementWaterChangesOnlyCount | rise/rise-backend/api/routes/home.py:96-118 | only water_count of the (user, date) rows changes, or exactly one row (1, 8, 0.0) is appended |
| Home.IncrementKeepsKey | rise/rise-backend/api/routes/home.py:96-118 | increment_water keeps (user, date) a key |
| Home.CountedRowKeepsKey | rise/rise-backend/api/routes/home.py:102-109 | rewriting the count of a day's rows keeps (user, date) a key |
| Home.FreshRowKeepsKey | rise/rise-backend/api/routes/home.py:110-118 | inserting a row for a day without one keeps (user, date) a key |
| Home.DecrementWaterClamps | rise/rise-backend/api/routes/home.py:144-152 | the reported count becomes max(0, old - 1), never negative; without a row nothing is written |
| Home.UpdateDetoxUpserts | rise/rise-backend/api/routes/home.py:179-194 | update_detox adds a row exactly when the day had none, and keeps (user, date) a key |
| Home.UpdateDetoxThenGet | rise/rise-backend/api/routes/home.py:179-194 | afterwards get_status reports the new detox progress |
| Auth.Public | rise/rise-backend/api/routes/auth.py:102-110 | the reply copies id, username, email, points and stars of the row and has no password field |
| Auth.RegisterReply | rise/rise-backend/api/routes/auth.py:21-47 | register rejects exactly when the email or the username is already used |
| Auth.Register | rise/rise-backend/api/routes/auth.py:7-51 | 400 when a field is missing; otherwise the reply is RegisterReply and a row is appended exactly when it is not a 400 |
| Auth.RegisterKeepsUnique | rise/rise-backend/api/routes/auth.py:21-39 | registration keeps ids, emails and usernames unique |
| Auth.RegisterThenLogin | rise/rise-backend/api/routes/auth.py:31-39 | a user who just registered logs in with that email and password |
| Auth.Login | rise/rise-backend/api/routes/auth.py:54-91 | 400 exactly when a credential is missing; 401 exactly when no row fits; otherwise the public view of a row that fits |
| Auth.LoginPrefersEmail | rise/rise-backend/api/routes/auth.py:65-70 | the first row whose email and password fit is the answer, before any username match |
| Auth.GetProfile | rise/rise-backend/api/routes/auth.py:94-119 | 400 exactly without userId; 404 exactly when no row has the id; otherwise the public view of a row with the id |
| Auth.ProfileOfUnique | rise/rise-backend/api/routes/auth.py:102-110 | with unique ids the profile is that of the one row with the id |
| Auth.ProfileCheck | rise/rise-backend/api/routes/auth.py:132-150 | the checks pass exactly when some field is given and neither the username nor the email is held first by another user; otherwise the reply is 400 "Username already taken", then "Email already taken", then "No fields to update", checked in that order |
| Auth.UpdateProfile | rise/rise-backend/api/routes/auth.py:122-162 | the reply is the check's verdict; exactly when it passes is the user row rewritten with the given fields, otherwise the table is unchanged |
| Auth.NotTakenMeansOwn | rise/rise-backend/api/routes/auth.py:132-147 | in a unique column, a value whose first holder is not another user is held only by this user |
| Auth.UpdateProfileKeepsUnique | rise/rise-backend/api/routes/auth.py:132-156 | a profile update that passes the checks keeps ids, emails and usernames unique |
| Auth.UpdatePassword | rise/rise-backend/api/routes/auth.py:165-185 | with userId and a password, the user's password is rewritten; otherwise 400 and no write |
| Auth.PasswordThenLogin | rise/rise-backend/api/routes/auth.py:172-179 | after a password change the user logs in by email with the new password |
| Auth.UpdateStars | rise/rise-backend/api/routes/auth.py:188-208 | with userId and stars, the user's stars are rewritten; otherwise 400 and no write |
| Auth.UpdatePoints | rise/rise-backend/api/routes/auth.py:211-231 | with userId and totalPoints, the user's total is rewritten; otherwise 400 and no write |
| Auth.StarsThenProfile | rise/rise-backend/api/routes/auth.py:195-202 | the profile then shows the new stars and nothing else changes; a missing user stays missing |
| Auth.PointsThenProfile | rise/rise-backend/api/routes/auth.py:218-225 | the profile then shows the new total and nothing else changes; a missing user stays missing |
| Auth.AwardedTotal | rise/rise-backend/api/routes/auth.py:250-255 | the new total is the sum when the sum is not negative and 0 when it is negative, so never negative |
| Auth.AwardPoints | rise/rise-backend/api/routes/auth.py:234-271 | 400 without userId or points; 404 without the user; otherwise the total is set to the floored sum and answered |
| Auth.AwardPointsThenProfile | rise/rise-backend/api/routes/auth.py:245-262 | the profile then shows the old total plus the award, floored at 0 |
| Habits.GetHabits | rise/rise-backend/api/routes/habits.py:8-30 | 400 exactly without userId; otherwise exactly the user's habits, narrowed to the frequency when one is given |
| Habits.NewHabit | rise/rise-backend/api/routes/habits.py:38-53 | a new habit is "active", has 10 points and no reminder unless the request says otherwise, and gets a fresh id |
| Habits.AddHabit | rise/rise-backend/api/routes/habits.py:33-58 | the new habit is appended unchecked, and its id is answered when the store echoes the row |
| Habits.AddThenList | rise/rise-backend/api/routes/habits.py:33-58 | the added habit is listed last for the user, and check_habit_exists finds its title |
| Habits.AddKeepsIdsUnique | rise/rise-backend/api/routes/habits.py:38-53 | adding habits keeps ids unique |
| Habits.UpdateHabit | rise/rise-backend/api/routes/habits.py:61-92 | with habitId and userId, the habit (id, user) is rewritten by HabitEdit; otherwise 400 and no write |
| Habits.UpdateHabitEffect | rise/rise-backend/api/routes/habits.py:71-86 | only the addressed habit changes; there status is the request's (null when absent) and last_updated is now; ids, owners and titles stay |
| Habits.UpdateHabitStatus | rise/rise-backend/api/routes/habits.py:95-121 | with userId, title and status, every habit of the user with that title gets the status; otherwise 400 and no write |
| Habits.CompleteThenCount | rise/rise-backend/api/routes/habits.py:103-115 | completing a title raises the completed count by the user's habits with that title that were not completed |
| Habits.CompletedRowsAfter | rise/rise-backend/api/routes/habits.py:103-115 | the completed rows grow by exactly the newly completed rows |
| Habits.DeleteHabit | rise/rise-backend/api/routes/habits.py:124-142 | with id and userId, the habit (id, user) is deleted; otherwise 400 and no write |
| Habits.DeleteHabitEffect | rise/rise-backend/api/routes/habits.py:130-136 | afterwards the user's list has no habit with that id, and every other habit remains |
| Habits.GetHabitByTitle | rise/rise-backend/api/routes/habits.py:145-167 | 400 exactly without userId or title; null exactly when the user has no habit with the title; otherwise such a habit |
| Habits.CheckHabitExists | rise/rise-backend/api/routes/habits.py:170-193 | 400 exactly without userId or title; true exactly when the user has a habit with the title (and frequency when given) |
| Habits.ExistsAgreesWithByTitle | rise/rise-backend/api/routes/habits.py:170-193 | without a frequency, check_habit_exists says yes exactly when get_habit_by_title finds a habit |
| Habits.GetCompletedHabits | rise/rise-backend/api/routes/habits.py:196-216 | 400 exactly without userId; otherwise the number of positions in the table holding one of the user's habits with status "completed" |
| Moods.NormalizeDate | rise/rise-backend/api/routes/moods.py:7-8 | defined exactly when the first ten characters parse; the result is 10 characters of ISO fields of the parsed date |
| Moods.NormalizeIdempotent | rise/rise-backend/api/routes/moods.py:7-8 | normalizing a normalized date changes nothing |
| Moods.NormalizeIsIso | rise/rise-backend/api/routes/moods.py:7-8 | the ISO text of a date normalizes to itself |
| Moods.GetTodayMood | rise/rise-backend/api/routes/moods.py:13-35 | 400 exactly without userId or date; null exactly when no mood has that (user, date); otherwise such a mood |
| Moods.SaveMood | rise/rise-backend/api/routes/moods.py:38-85 | an unparseable or missing date gives the catch-all error before the 400 check; otherwise upsert at the normalized date |
| Moods.SaveThenToday | rise/rise-backend/api/routes/moods.py:51-79 | get_today_mood then finds the new image and label, with the earlier created_at when there was one |
| Moods.SaveKeepsKey | rise/rise-backend/api/routes/moods.py:51-79 | save_mood keeps (user, date) a key and adds a row only for a new day |
| Moods.DeleteMood | rise/rise-backend/api/routes/moods.py:88-106 | an unparseable or missing date gives the catch-all error; otherwise the mood at the normalized date is deleted |
| Moods.DeleteThenToday | rise/rise-backend/api/routes/moods.py:92-100 | get_today_mood then finds nothing for that day, and moods of other days or users remain |
| Moods.GetAllMoods | rise/rise-backend/api/routes/moods.py:109-133 | 400 exactly without userId; the user's moods, latest date first, equal dates in table order |
| Moods.MoodsInMonth | rise/rise-backend/api/routes/moods.py:153-165 | exactly the user's moods whose date splits into that year and zero-padded month |
| Moods.GetMoodsByMonth | rise/rise-backend/api/routes/moods.py:136-174 | 400 exactly when a parameter is missing; otherwise the loop answers MoodsInMonth |
| Moods.NormalizedInMonth | rise/rise-backend/api/routes/moods.py:159-163 | a mood at a normalized date passes the month test, with the month given as "3" or as "03" |
| Moods.SavedMoodInItsMonth | rise/rise-backend/api/routes/moods.py:136-174 | a saved mood is listed for its date's year and month, with the month given as "3" or as "03" |
| Journals.Unorderable | rise/rise-backend/api/routes/journals.py:28 | reference definition of when the sort raises on a null date: never for one entry, never when every entry has a date |
| Journals.ReadDate | rise/rise-backend/api/routes/journals.py:36-37 | reference definition of the filter's date reading: a null date cannot be read, a date without 'Z' is parsed as it is |
| Journals.InMonth | rise/rise-backend/api/routes/journals.py:31-38 | reference definition of the month/year filter: an unreadable date never matches, and a month outside 1 to 12 matches nothing |
| Journals.GetJournals | rise/rise-backend/api/routes/journals.py:9-47 | 400 exactly without userId; the catch-all error exactly when a null date meets the sort or an unreadable date meets the month filter; otherwise sorted latest first and the user's entries (of the month when filtered) |
| Journals.ListingErrors | rise/rise-backend/api/routes/journals.py:27-38 | the sort and the month filter raise exactly in the cases above |
| Journals.ListingOk | rise/rise-backend/api/routes/journals.py:27-38 | a successful listing is sorted, a stable permutation of the user's entries, and narrowed to the month when asked |
| Journals.SameEntries | rise/rise-backend/api/routes/journals.py:27-28 | a reordering of the user's entries holds exactly the user's entries |
| Journals.UnreadableListed | rise/rise-backend/api/routes/journals.py:31-38 | the month filter meets an unreadable date exactly when the user has one |
| Journals.FilterNarrowsListing | rise/rise-backend/api/routes/journals.py:31-38 | the month listing is the full listing filtered to the month, in the same order |
| Journals.ListingMembers | rise/rise-backend/api/routes/journals.py:20-38 | the listing holds exactly the user's entries, those of the month when filtered |
| Journals.ListedInItsMonth | rise/rise-backend/api/routes/journals.py:31-38 | an entry is listed for the month and year its date reads as |
| Journals.NewJournal | rise/rise-backend/api/routes/journals.py:55-76 | a new entry gets an id no other entry has |
| Journals.AddJournal | rise/rise-backend/api/routes/journals.py:50-80 | the entry is appended unchecked, and its id is answered when the store echoes the row |
| Journals.AddThenList | rise/rise-backend/api/routes/journals.py:50-80 | an entry added with a date joins the user's listing and nothing else does; ids stay unique |
| Journals.UpdateJournal | rise/rise-backend/api/routes/journals.py:83-115 | with id and userId, the content of entry (id, user) is replaced; otherwise 400 and no write |
| Journals.UpdateJournalScope | rise/rise-backend/api/routes/journals.py:93-109 | only the content of entry (id, user) changes; ids, owners, dates and times stay, and ids stay unique |
| Journals.UpdateJournalLeavesOthers | rise/rise-backend/api/routes/journals.py:93-109 | another user's listing is unchanged |
| Journals.DeleteJournal | rise/rise-backend/api/routes/journals.py:118-136 | with id and userId, the entry (id, user) is deleted; otherwise 400 and no write |
| Journals.DeleteThenList | rise/rise-backend/api/routes/journals.py:124-130 | the user's listing has no entry with that id, every other row remains, and another user's listing is unchanged |
| PlantProgress.Report | rise/rise-backend/api/routes/plant.py:35-50 | the catch-all error exactly when the user row is missing; otherwise the first plant's water, sunlight and stage (zeros without a plant) and the user row's total_points and stars |
| PlantProgress.GetPlant | rise/rise-backend/api/routes/plant.py:8-54 | 400 without userId; otherwise a seedling is inserted when missing, even if the reply is then the error, and the reply is the report |
| PlantProgress.GetPlantAutoCreates | rise/rise-backend/api/routes/plant.py:14-33 | afterwards the user has a plant, a second call changes nothing, the answer matches the stored row, and one plant per user stays |
| PlantProgress.UpdatePlant | rise/rise-backend/api/routes/plant.py:58-98 | the user's plant takes the counters; the user row takes the points and stars that were supplied; otherwise 400 and no write |
| PlantProgress.UpdateThenGet | rise/rise-backend/api/routes/plant.py:73-92 | get_plant then reports the new counters (zeros when no plant existed) and the supplied points and stars |
| PlantProgress.ResetPlant | rise/rise-backend/api/routes/plant.py:102-120 | with userId, every plant of the user is reset to zero; otherwise 400 and no write |
| PlantProgress.ResetThenGet | rise/rise-backend/api/routes/plant.py:107-114 | get_plant then reports zeros and unchanged points and stars |
| PlantProgress.ResetScope | rise/rise-backend/api/routes/plant.py:107-114 | owners and update times stay, and other users' plants are untouched |
| PlantProgress.ResetIdempotent | rise/rise-backend/api/routes/plant.py:107-114 | resetting twice equals resetting once |
| AppLocks.GetLock | rise-backend/api/routes/app_lock.py:7-33 | 400 exactly without userId; null exactly when the user has no lock; otherwise the first lock's type and value |
| AppLocks.SaveLock | rise-backend/api/routes/app_lock.py:36-72 | with userId, type and value, the table becomes the upsert LockSaved; otherwise 400 and no write |
| AppLocks.SaveThenGet | rise-backend/api/routes/app_lock.py:46-66 | get_lock then answers the saved lock; a row is added only when the user had none; one lock per user stays |
| AppLocks.SaveLeavesOthers | rise-backend/api/routes/app_lock.py:46-66 | get_lock answers the same as before for every other user |
| AppLocks.RemoveLock | rise-backend/api/routes/app_lock.py:76-93 | with userId, every lock of the user is deleted; otherwise 400 and no write |
| AppLocks.RemoveThenGet | rise-backend/api/routes/app_lock.py:81-87 | get_lock then answers null for the user and the same as before for every other user |
| Articles.GetAllArticles | rise-backend/api/routes/articles.py:7-24 | exactly the published articles of the language (default "en"), latest updated_at first, equal keys in table order |
| Articles.ListedMembers | rise-backend/api/routes/articles.py:10-18 | an article is listed exactly when it is in the table, published and in the language |
| Articles.GetArticle | rise-backend/api/routes/articles.py:28-51 | 400 exactly without a slug; otherwise Ok exactly when the first article with that slug and language is published, and then that article; else 404 |
| Articles.FoundIffListed | rise-backend/api/routes/articles.py:28-51 | when (slug, language) identifies an article, get_article finds it exactly when get_all_articles lists it |

## Left out

- The habit streak and restoration engine: streak counts, best streak, task promotion and point-funded restoration. The handler code has no such logic, so there is nothing to model.
- Flask itself: routing, JSON decoding, HTTP status numbers, and 201 versus 200. A reply is the `Reply` variant with the source's message.
- Request parsing:
  - A query parameter that `int()` cannot parse is not modelled. In the source `int()` raises and the reply is the catch-all error.
  - A query value is Some exactly when the key is present.
  - An empty query value for an int parameter (`?userId=`, `?month=`, `?year=`) cannot be expressed: such values are modelled as `Option<int>`. The source treats the empty string as false. It answers 400 for an empty `userId` (home.py line 14, and the other handlers' checks), and `get_journals` skips the month filter for an empty `month` or `year` (journals.py line 31).
  - A JSON null is modelled the same as an absent key.
- Exceptions: the catch-all 500 reply carries a representative message. The Python exception text is not modelled.
- Inputs outside the handlers:
  - `datetime.fromisoformat` is the parameter `parse`; its parsing rules are not modelled.
  - `datetime.now()` is the parameter `now`.
  - Moods.NormalizeIdempotent and Moods.NormalizeIsIso assume only that `parse` reads back what `isoformat` writes.
- Concurrency: interleaved requests and lost updates between a select and the update or insert that follows it. Each handler is modelled as one atomic step.
- Column projections: select of `id, title, ...` versus `*`, `image_path`, `hero_image_url` and `created_at` columns the replies do not depend on. Rows hold the columns the handlers use.
- Store-generated values: identity columns are modelled as one more than the largest id (`Store.NextId`). Defaults and timestamps the database would fill are left out.
- Supabase's string/int coercion:
  - `get_plant` inserts the user id as received.
  - `update_profile` compares `existing[0]['id']` with the request's `userId` (auth.py lines 139 and 145).
  - In both, ids are modelled as integers compared by value.
- `detox_progress` is a real number with no arithmetic on it. Floating-point rounding does not arise and is not modelled.
- Whether the store answers the inserted row (row-level security, an empty `res.data`) is the parameter `echoed` of `Register`, `AddHabit` and `AddJournal`.
- The `.get(column, 0)` fallbacks for columns that are always present (`total_points`, `water_count`) are not modelled: the row always has the column.
- index.py, the application factory that registers the handlers, is not part of this model.
