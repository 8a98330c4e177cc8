/**
 * The `users` handlers (rise/rise-backend/api/routes/auth.py): registration,
 * login by email or username, the profile, and the point and star counters.
 */
module Auth {
  import opened Wrappers
  import opened Store
  import opened Schema

  /** The columns login and get_profile select: every column but the password. */
  datatype PublicUser = PublicUser(
    id: int,
    firstName: string,
    lastName: string,
    username: string,
    email: string,
    totalPoints: int,
    stars: int)

  function Public(u: User): (p: PublicUser)
    ensures p.id == u.id && p.username == u.username && p.email == u.email
    ensures p.totalPoints == u.totalPoints && p.stars == u.stars
  {
    PublicUser(u.id, u.firstName, u.lastName, u.username, u.email, u.totalPoints, u.stars)
  }

  function IdOf(u: User): int { u.id }
  function EmailOf(u: User): string { u.email }
  function UsernameOf(u: User): string { u.username }

  /** The filter {'id': u}. */
  function IdIs(u: int): User -> bool
  {
    (x: User) => x.id == u
  }

  /** The filter {'email': e}. */
  function EmailIs(e: string): User -> bool
  {
    (x: User) => x.email == e
  }

  /** The filter {'username': n}. */
  function UsernameIs(n: string): User -> bool
  {
    (x: User) => x.username == n
  }

  /** The filter {'email': ident, 'password': pw}. */
  function EmailLogin(ident: string, pw: string): User -> bool
  {
    (x: User) => x.email == ident && x.password == pw
  }

  /** The filter {'username': ident, 'password': pw}. */
  function UsernameLogin(ident: string, pw: string): User -> bool
  {
    (x: User) => x.username == ident && x.password == pw
  }

  /** The three columns no two users share once registration is the only way in. */
  ghost predicate UsersUnique(t: seq<User>)
  {
    UniqueBy(t, IdOf) && UniqueBy(t, EmailOf) && UniqueBy(t, UsernameOf)
  }

  // ----- register -----

  /** The row register inserts: the next id, the request's fields, no points, no stars. */
  function NewUser(t: seq<User>, first: string, last: string, username: string, email: string, password: string): User
  {
    User(NextId(t, IdOf), first, last, username, email, password, 0, 0)
  }

  /** The reply register gives when no field is missing. */
  function RegisterReply(t: seq<User>, first: string, last: string, username: string, email: string,
                         password: string, echoed: bool): (r: Reply<User>)
    ensures r.BadRequest? <==> Where(t, EmailIs(email)) != [] || Where(t, UsernameIs(username)) != []
  {
    if Where(t, EmailIs(email)) != [] then BadRequest("Email already exists")
    else if Where(t, UsernameIs(username)) != [] then BadRequest("Username already exists")
    else if echoed then Ok(NewUser(t, first, last, username, email, password))
    else ServerError("Failed to create user")
  }

  /**
   * register. `echoed` says whether the store returned the inserted row; when
   * it did not, the row is inserted all the same and the reply is an error.
   */
  method Register(db: Db, firstName: Option<string>, lastName: Option<string>, username: Option<string>,
                  email: Option<string>, password: Option<string>, echoed: bool)
    returns (r: Reply<User>)
    modifies db`users
    ensures var given := GivenText(firstName) && GivenText(lastName) && GivenText(username)
                         && GivenText(email) && GivenText(password);
            if !given then r == BadRequest("Missing required fields") && db.users == old(db.users)
            else
              r == RegisterReply(old(db.users), firstName.value, lastName.value, username.value,
                                 email.value, password.value, echoed)
              && db.users == if r.BadRequest? then old(db.users)
                             else old(db.users) + [NewUser(old(db.users), firstName.value, lastName.value,
                                                           username.value, email.value, password.value)]
  {
    if !(GivenText(firstName) && GivenText(lastName) && GivenText(username) && GivenText(email) && GivenText(password)) {
      return BadRequest("Missing required fields");
    }
    var existingEmail := Where(db.users, EmailIs(email.value));
    if existingEmail != [] {
      return BadRequest("Email already exists");
    }
    var existingUsername := Where(db.users, UsernameIs(username.value));
    if existingUsername != [] {
      return BadRequest("Username already exists");
    }
    var row := NewUser(db.users, firstName.value, lastName.value, username.value, email.value, password.value);
    db.users := db.users + [row];
    if echoed {
      r := Ok(row);
    } else {
      r := ServerError("Failed to create user");
    }
  }

  /** Registration keeps ids, emails and usernames unique. */
  lemma RegisterKeepsUnique(t: seq<User>, first: string, last: string, username: string, email: string,
                            password: string)
    requires UsersUnique(t)
    requires Where(t, EmailIs(email)) == [] && Where(t, UsernameIs(username)) == []
    ensures UsersUnique(t + [NewUser(t, first, last, username, email, password)])
  {
    var x := NewUser(t, first, last, username, email, password);
    WhereMembers(t, EmailIs(email));
    WhereMembers(t, UsernameIs(username));
    AppendKeepsUnique(t, x, IdOf);
    AppendKeepsUnique(t, x, EmailOf);
    AppendKeepsUnique(t, x, UsernameOf);
  }

  /** A user who just registered can log in with the email and password given. */
  lemma RegisterThenLogin(t: seq<User>, first: string, last: string, username: string, email: string,
                          password: string)
    requires email != "" && password != ""
    requires Where(t, EmailIs(email)) == []
    ensures Login(t + [NewUser(t, first, last, username, email, password)], Some(email), Some(password))
         == Ok(Public(NewUser(t, first, last, username, email, password)))
  {
    var x := NewUser(t, first, last, username, email, password);
    var t' := t + [x];
    WhereMembers(t, EmailIs(email));
    forall j | 0 <= j < |t| ensures t'[j].email != email {
      assert t'[j] == t[j] && t[j] in t;
    }
    LoginPrefersEmail(t', email, password, |t|);
  }

  // ----- login -----

  /** A row the credentials fit: the password, and the identifier as email or as username. */
  predicate Fits(x: User, ident: string, pw: string)
  {
    x.password == pw && (x.email == ident || x.username == ident)
  }

  /**
   * login: the first row matching email and password, else the first row
   * matching username and password; the reply leaves the password out.
   */
  function Login(t: seq<User>, identifier: Option<string>, password: Option<string>): (r: Reply<PublicUser>)
    ensures !(GivenText(identifier) && GivenText(password)) <==> r == BadRequest("Missing credentials")
    ensures r.Ok? || r.BadRequest? || r == Unauthorized("Invalid credentials")
    ensures r.Ok? ==> exists i :: 0 <= i < |t| && Fits(t[i], identifier.value, password.value) && r.value == Public(t[i])
    ensures r.Unauthorized? <==>
              GivenText(identifier) && GivenText(password)
              && forall i :: 0 <= i < |t| ==> !Fits(t[i], identifier.value, password.value)
  {
    if !(GivenText(identifier) && GivenText(password)) then BadRequest("Missing credentials")
    else
      var ident, pw := identifier.value, password.value;
      var byEmail := SelectOne(t, EmailLogin(ident, pw));
      var result := if byEmail.Some? then byEmail else SelectOne(t, UsernameLogin(ident, pw));
      if result.None? then Unauthorized("Invalid credentials") else Ok(Public(result.value))
  }

  /** An email match wins over a username match: login answers the first row whose email fits. */
  lemma LoginPrefersEmail(t: seq<User>, ident: string, pw: string, i: nat)
    requires ident != "" && pw != ""
    requires i < |t| && t[i].email == ident && t[i].password == pw
    requires forall j :: 0 <= j < i ==> !(t[j].email == ident && t[j].password == pw)
    ensures Login(t, Some(ident), Some(pw)) == Ok(Public(t[i]))
  {
    FirstIndexIs(t, EmailLogin(ident, pw), i);
  }

  // ----- get_profile -----

  /** get_profile: the user with this id, without the password. */
  function GetProfile(t: seq<User>, userId: Option<int>): (r: Reply<PublicUser>)
    ensures userId.None? <==> r == BadRequest("userId required")
    ensures r.Ok? || r.BadRequest? || r == NotFound("User not found")
    ensures r.NotFound? <==> userId.Some? && forall i :: 0 <= i < |t| ==> t[i].id != userId.value
    ensures r.Ok? ==> exists i :: 0 <= i < |t| && t[i].id == userId.value && r.value == Public(t[i])
  {
    if userId.None? then BadRequest("userId required")
    else
      match SelectOne(t, IdIs(userId.value))
      case None => NotFound("User not found")
      case Some(row) => Ok(Public(row))
  }

  /** With unique ids, get_profile answers the one row with that id. */
  lemma ProfileOfUnique(t: seq<User>, i: nat)
    requires UniqueBy(t, IdOf) && i < |t|
    ensures GetProfile(t, Some(t[i].id)) == Ok(Public(t[i]))
  {
    SelectOneUnique(t, IdOf, t[i].id, IdIs(t[i].id), i);
  }

  // ----- update_profile -----

  /** The keys of the update_profile request: None when the key is absent. */
  datatype ProfilePatch = ProfilePatch(
    firstName: Option<string>,
    lastName: Option<string>,
    username: Option<string>,
    email: Option<string>)
  {
    predicate Empty()
    {
      firstName.None? && lastName.None? && username.None? && email.None?
    }
  }

  /** Whether the first row with this value in a column belongs to another user. */
  predicate TakenByOther(t: seq<User>, f: User -> bool, userId: int)
  {
    var existing := Where(t, f);
    existing != [] && existing[0].id != userId
  }

  /** The checks update_profile makes before writing, in its order. */
  function ProfileCheck(t: seq<User>, userId: int, p: ProfilePatch): (r: Reply<()>)
    ensures r.Ok? ==> !p.Empty()
    ensures r.Ok? ==> p.username.Some? ==> !TakenByOther(t, UsernameIs(p.username.value), userId)
    ensures r.Ok? ==> p.email.Some? ==> !TakenByOther(t, EmailIs(p.email.value), userId)
    ensures r.Ok? <==> !p.Empty()
                       && (p.username.Some? ==> !TakenByOther(t, UsernameIs(p.username.value), userId))
                       && (p.email.Some? ==> !TakenByOther(t, EmailIs(p.email.value), userId))
    // each rejection, in the order the checks are made
    ensures p.username.Some? && TakenByOther(t, UsernameIs(p.username.value), userId)
            ==> r == BadRequest("Username already taken")
    ensures !(p.username.Some? && TakenByOther(t, UsernameIs(p.username.value), userId))
            && p.email.Some? && TakenByOther(t, EmailIs(p.email.value), userId)
            ==> r == BadRequest("Email already taken")
    ensures !(p.username.Some? && TakenByOther(t, UsernameIs(p.username.value), userId))
            && !(p.email.Some? && TakenByOther(t, EmailIs(p.email.value), userId))
            && p.Empty()
            ==> r == BadRequest("No fields to update")
  {
    if p.username.Some? && TakenByOther(t, UsernameIs(p.username.value), userId) then BadRequest("Username already taken")
    else if p.email.Some? && TakenByOther(t, EmailIs(p.email.value), userId) then BadRequest("Email already taken")
    else if p.Empty() then BadRequest("No fields to update")
    else Ok(())
  }

  /** The rewrite update_profile applies: each given key replaces its column. */
  function ApplyProfile(p: ProfilePatch): User -> User
  {
    (x: User) => x.(firstName := p.firstName.GetOr(x.firstName), lastName := p.lastName.GetOr(x.lastName),
                    username := p.username.GetOr(x.username), email := p.email.GetOr(x.email))
  }

  method UpdateProfile(db: Db, userId: Option<int>, p: ProfilePatch) returns (r: Reply<()>)
    modifies db`users
    ensures !GivenNum(userId) ==> r == BadRequest("userId required") && db.users == old(db.users)
    ensures GivenNum(userId) ==> r == ProfileCheck(old(db.users), userId.value, p)
    ensures GivenNum(userId) && r.Ok? ==> db.users == UpdateWhere(old(db.users), IdIs(userId.value), ApplyProfile(p))
    ensures !r.Ok? ==> db.users == old(db.users)
  {
    if !GivenNum(userId) {
      return BadRequest("userId required");
    }
    var u := userId.value;
    if p.username.Some? {
      var existing := Where(db.users, UsernameIs(p.username.value));
      if existing != [] && existing[0].id != u {
        return BadRequest("Username already taken");
      }
    }
    if p.email.Some? {
      var existing := Where(db.users, EmailIs(p.email.value));
      if existing != [] && existing[0].id != u {
        return BadRequest("Email already taken");
      }
    }
    if p.Empty() {
      return BadRequest("No fields to update");
    }
    db.users := UpdateWhere(db.users, IdIs(u), ApplyProfile(p));
    r := Ok(());
  }

  /**
   * Where the check passes, every row holding value `v` in a unique column
   * belongs to the user: the first such row does, and it is the only one.
   */
  lemma NotTakenMeansOwn(t: seq<User>, key: User -> string, f: User -> bool, v: string, userId: int)
    requires UniqueBy(t, key)
    requires forall x :: f(x) <==> key(x) == v
    requires !TakenByOther(t, f, userId)
    ensures forall i :: 0 <= i < |t| && key(t[i]) == v ==> t[i].id == userId
  {
    forall i | 0 <= i < |t| && key(t[i]) == v ensures t[i].id == userId {
      SelectOneUnique(t, key, v, f, i);
      WhereHead(t, f);
    }
  }

  /** An update that passes the checks keeps ids, emails and usernames unique. */
  lemma UpdateProfileKeepsUnique(t: seq<User>, userId: int, p: ProfilePatch)
    requires UsersUnique(t)
    requires ProfileCheck(t, userId, p).Ok?
    ensures UsersUnique(UpdateWhere(t, IdIs(userId), ApplyProfile(p)))
  {
    var f := ApplyProfile(p);
    var sel := IdIs(userId);
    UpdateKeepsUnique(t, sel, f, IdOf);
    assert forall i, j :: 0 <= i < |t| && 0 <= j < |t| && sel(t[i]) && sel(t[j]) ==> i == j by {
      forall i, j | 0 <= i < |t| && 0 <= j < |t| && sel(t[i]) && sel(t[j]) ensures i == j {
        assert IdOf(t[i]) == IdOf(t[j]);
      }
    }
    if p.username.Some? {
      var n := p.username.value;
      NotTakenMeansOwn(t, UsernameOf, UsernameIs(n), n, userId);
      UpdateOneKeepsUnique(t, sel, f, UsernameOf, n);
    } else {
      UpdateKeepsUnique(t, sel, f, UsernameOf);
    }
    if p.email.Some? {
      var e := p.email.value;
      NotTakenMeansOwn(t, EmailOf, EmailIs(e), e, userId);
      UpdateOneKeepsUnique(t, sel, f, EmailOf, e);
    } else {
      UpdateKeepsUnique(t, sel, f, EmailOf);
    }
  }

  // ----- update_password, update_stars, update_points -----

  function SetPassword(pw: string): User -> User
  {
    (x: User) => x.(password := pw)
  }

  function SetStars(n: int): User -> User
  {
    (x: User) => x.(stars := n)
  }

  function SetPoints(n: int): User -> User
  {
    (x: User) => x.(totalPoints := n)
  }

  method UpdatePassword(db: Db, userId: Option<int>, password: Option<string>) returns (r: Reply<()>)
    modifies db`users
    ensures if GivenNum(userId) && GivenText(password)
            then r == Ok(()) && db.users == UpdateWhere(old(db.users), IdIs(userId.value), SetPassword(password.value))
            else r == BadRequest("userId and password required") && db.users == old(db.users)
  {
    if !(GivenNum(userId) && GivenText(password)) {
      return BadRequest("userId and password required");
    }
    db.users := UpdateWhere(db.users, IdIs(userId.value), SetPassword(password.value));
    r := Ok(());
  }

  /** After a password change the user logs in by email with the new password. */
  lemma PasswordThenLogin(t: seq<User>, i: nat, pw: string)
    requires UsersUnique(t) && i < |t| && t[i].email != "" && pw != ""
    ensures var t' := UpdateWhere(t, IdIs(t[i].id), SetPassword(pw));
            Login(t', Some(t[i].email), Some(pw)) == Ok(Public(t[i]))
  {
    var t' := UpdateWhere(t, IdIs(t[i].id), SetPassword(pw));
    forall j | 0 <= j < i ensures !(t'[j].email == t[i].email && t'[j].password == pw) {
      assert t[j].email != t[i].email;
    }
    LoginPrefersEmail(t', t[i].email, pw, i);
  }

  method UpdateStars(db: Db, userId: Option<int>, stars: Option<int>) returns (r: Reply<()>)
    modifies db`users
    ensures if GivenNum(userId) && stars.Some?
            then r == Ok(()) && db.users == UpdateWhere(old(db.users), IdIs(userId.value), SetStars(stars.value))
            else r == BadRequest("userId and stars required") && db.users == old(db.users)
  {
    if !(GivenNum(userId) && stars.Some?) {
      return BadRequest("userId and stars required");
    }
    db.users := UpdateWhere(db.users, IdIs(userId.value), SetStars(stars.value));
    r := Ok(());
  }

  method UpdatePoints(db: Db, userId: Option<int>, totalPoints: Option<int>) returns (r: Reply<()>)
    modifies db`users
    ensures if GivenNum(userId) && totalPoints.Some?
            then r == Ok(()) && db.users == UpdateWhere(old(db.users), IdIs(userId.value), SetPoints(totalPoints.value))
            else r == BadRequest("userId and totalPoints required") && db.users == old(db.users)
  {
    if !(GivenNum(userId) && totalPoints.Some?) {
      return BadRequest("userId and totalPoints required");
    }
    db.users := UpdateWhere(db.users, IdIs(userId.value), SetPoints(totalPoints.value));
    r := Ok(());
  }

  /** The profile read after update_stars shows the stars written, and nothing else moved. */
  lemma StarsThenProfile(t: seq<User>, u: int, n: int)
    ensures var before := GetProfile(t, Some(u));
            var after := GetProfile(UpdateWhere(t, IdIs(u), SetStars(n)), Some(u));
            (before.NotFound? ==> after == before) && (before.Ok? ==> after == Ok(before.value.(stars := n)))
  {
    SelectOneAfterUpdate(t, IdIs(u), SetStars(n));
  }

  /** The profile read after update_points shows the total written, and nothing else moved. */
  lemma PointsThenProfile(t: seq<User>, u: int, n: int)
    ensures var before := GetProfile(t, Some(u));
            var after := GetProfile(UpdateWhere(t, IdIs(u), SetPoints(n)), Some(u));
            (before.NotFound? ==> after == before) && (before.Ok? ==> after == Ok(before.value.(totalPoints := n)))
  {
    SelectOneAfterUpdate(t, IdIs(u), SetPoints(n));
  }

  // ----- award_points -----

  /** The new total award_points stores: the sum, floored at 0. */
  function AwardedTotal(current: int, points: int): (n: int)
    ensures n >= 0
    ensures n >= current + points
    ensures current + points >= 0 ==> n == current + points
    ensures current + points < 0 ==> n == 0
  {
    if current + points < 0 then 0 else current + points
  }

  method AwardPoints(db: Db, userId: Option<int>, points: Option<int>) returns (r: Reply<int>)
    modifies db`users
    ensures !(GivenNum(userId) && points.Some?) ==> r == BadRequest("userId and points required")
    ensures GivenNum(userId) && points.Some? ==>
              match SelectOne(old(db.users), IdIs(userId.value))
              case None => r == NotFound("User not found")
              case Some(user) => r == Ok(AwardedTotal(user.totalPoints, points.value))
    ensures if r.Ok? then db.users == UpdateWhere(old(db.users), IdIs(userId.value), SetPoints(r.value))
            else db.users == old(db.users)
  {
    if !(GivenNum(userId) && points.Some?) {
      return BadRequest("userId and points required");
    }
    var user := SelectOne(db.users, IdIs(userId.value));
    if user.None? {
      return NotFound("User not found");
    }
    var currentPoints := user.value.totalPoints;
    var newPoints := currentPoints + points.value;
    if newPoints < 0 {
      newPoints := 0;
    }
    db.users := UpdateWhere(db.users, IdIs(userId.value), SetPoints(newPoints));
    r := Ok(newPoints);
  }

  /** After award_points the profile shows the old total plus the award, floored at 0. */
  lemma AwardPointsThenProfile(t: seq<User>, u: int, points: int)
    requires GetProfile(t, Some(u)).Ok?
    ensures var before := GetProfile(t, Some(u)).value.totalPoints;
            var n := AwardedTotal(before, points);
            GetProfile(UpdateWhere(t, IdIs(u), SetPoints(n)), Some(u)).value.totalPoints == n
  {
    PointsThenProfile(t, u, AwardedTotal(GetProfile(t, Some(u)).value.totalPoints, points));
  }
}
