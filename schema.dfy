/**
 * The tables the handlers read and write, one row type per table, the store
 * object that holds them, and what a handler answers instead of an HTTP reply.
 *
 * A nullable column is an Option. Request values are Options too: None when
 * the key is absent from the JSON body or the query string.
 */
module Schema {
  import opened Wrappers

  /** A row of `users`. */
  datatype User = User(
    id: int,
    firstName: string,
    lastName: string,
    username: string,
    email: string,
    password: string,
    totalPoints: int,
    stars: int)

  /** A row of `home_status`, keyed by (user_id, date). `detox_progress` is a float, never computed on. */
  datatype HomeStatus = HomeStatus(
    userId: int,
    date: string,
    waterCount: int,
    waterGoal: int,
    detoxProgress: real)

  /** A row of `habits`. `add_habit` copies request values unchecked, so most columns may be null. */
  datatype Habit = Habit(
    id: int,
    userId: Option<int>,
    title: Option<string>,
    description: Option<string>,
    frequency: Option<string>,
    status: Option<string>,
    doItAt: Option<string>,
    points: int,
    remindMe: bool,
    lastUpdated: Option<string>)

  /** A row of `daily_moods`, keyed by (user_id, date) with the date in ISO form. */
  datatype Mood = Mood(
    userId: int,
    date: string,
    moodImage: string,
    moodLabel: string,
    createdAt: string,
    updatedAt: string)

  /** The columns of a journal entry that `update_journal` rewrites. */
  datatype JournalContent = JournalContent(
    text: Option<string>,
    title: Option<string>,
    mood: Option<string>,
    backgroundImage: Option<string>,
    fontFamily: Option<string>,
    textColor: Option<string>,
    fontSize: Option<int>,
    attachedImages: Option<string>,
    stickers: Option<string>)

  /** A row of `journals`. */
  datatype Journal = Journal(
    id: int,
    userId: Option<int>,
    date: Option<string>,
    time: Option<string>,
    voicePath: Option<string>,
    content: JournalContent)

  /** A row of `plant_progress`. */
  datatype Plant = Plant(
    userId: int,
    water: int,
    sunlight: int,
    stage: int,
    updatedAt: string)

  /** A row of `app_locks`. */
  datatype AppLock = AppLock(
    userId: int,
    lockType: string,
    lockValue: string)

  /** A row of `articles` (read only). */
  datatype Article = Article(
    id: int,
    slug: string,
    title: string,
    summary: string,
    content: string,
    language: Option<string>,
    isPublished: Option<bool>,
    updatedAt: Option<string>)

  /** The store: one table per field. Each handler changes at most the tables it names. */
  class Db {
    var users: seq<User>
    var habits: seq<Habit>
    var homeStatus: seq<HomeStatus>
    var moods: seq<Mood>
    var journals: seq<Journal>
    var plants: seq<Plant>
    var locks: seq<AppLock>
    var articles: seq<Article>
  }

  /**
   * A handler's answer: the success payload, or the kind of error with the
   * source's message. ServerError stands for the catch-all 500 reply when a
   * Python exception is certain (a None where a string is needed).
   */
  datatype Reply<T> =
    | Ok(value: T)
    | BadRequest(message: string)
    | NotFound(message: string)
    | Unauthorized(message: string)
    | ServerError(message: string)

  /** A string request value Python treats as true: present and not "". */
  predicate GivenText(v: Option<string>)
  {
    v.Some? && v.value != ""
  }

  /** A JSON number Python treats as true: present and not 0. */
  predicate GivenNum(v: Option<int>)
  {
    v.Some? && v.value != 0
  }
}
