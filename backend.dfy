/** The Postgres server (backend/server.js): registration, login, the entries listing,
    adding an entry and the leaderboard, over in-memory copies of the `users` and
    `map_entries` tables. */
module Backend {
  import opened Common
  import opened Passwords
  import opened Tables

  /** A row of `users` as registration writes it. */
  datatype UserRow = UserRow(email: string, username: string, password: Digest)

  /** The JSON body of `POST /api/register`; a field may be absent. */
  datatype RegisterBody = RegisterBody(email: Option<string>, username: Option<string>, password: Option<string>)

  /** The fields of a registration that passed every check. */
  datatype Credentials = Credentials(email: string, username: string, password: string)

  /** The reasons registration answers 400, in the order the handler tests them. */
  datatype RegisterError =
    | FieldsMissing
    | InvalidEmail
    | UsernameLength
    | PasswordLength
    | EmailExists
    | UsernameExists

  function ErrorMessage(e: RegisterError): string {
    match e
    case FieldsMissing => "All fields are required."
    case InvalidEmail => "Please provide a valid email address."
    case UsernameLength => "Username must be between 4 and 30 characters long."
    case PasswordLength => "Password must be between 8 and 30 characters long."
    case EmailExists => "Email already exists."
    case UsernameExists => "Username already exists."
  }

  const LoginFailure := "Invalid username or password."

  /** No white space among `s[lo..hi]`. */
  predicate NoSpaceIn(s: string, lo: int, hi: int)
    requires 0 <= lo <= hi <= |s|
  {
    forall m :: lo <= m < hi ==> !IsWhitespace(s[m])
  }

  /** The regular expression `\S+@\S+\.\S+` matches `s[i..e]`, with its `@` at `j` and its
      `.` at `k`: three non-empty runs of non-space characters around the two separators. */
  ghost predicate RegexMatchAt(s: string, i: int, j: int, k: int, e: int) {
    && 0 <= i < j && j + 1 < k && k + 1 < e <= |s|
    && NoSpaceIn(s, i, j) && s[j] == '@'
    && NoSpaceIn(s, j + 1, k) && s[k] == '.'
    && NoSpaceIn(s, k + 1, e)
  }

  /** `/\S+@\S+\.\S+/.test(s)`: the expression is not anchored, so it matches anywhere in `s`. */
  ghost predicate EmailRegexMatches(s: string) {
    exists i, j, k, e :: RegexMatchAt(s, i, j, k, e)
  }

  /** The email check holds with the `@` at `j` and the `.` at `k`: the `@` follows a non-space
      character, at least one character separates it from the `.`, those characters are not
      white space, and a non-space character follows the `.`. */
  predicate EmailShapeAt(s: string, j: int, k: int) {
    && 1 <= j && j + 2 <= k && k + 1 < |s|
    && s[j] == '@' && s[k] == '.'
    && !IsWhitespace(s[j - 1]) && NoSpaceIn(s, j + 1, k) && !IsWhitespace(s[k + 1])
  }

  /** The email check the handler runs, decided from the positions of one `@` and one `.`. */
  predicate ValidEmail(s: string) {
    exists j, k :: 0 <= j < k < |s| && EmailShapeAt(s, j, k)
  }

  /** The email check accepts exactly the strings the regular expression matches somewhere. */
  lemma ValidEmailIffRegexMatches(s: string)
    ensures ValidEmail(s) <==> EmailRegexMatches(s)
  {
    if ValidEmail(s) {
      var j, k :| 0 <= j < k < |s| && EmailShapeAt(s, j, k);
      assert RegexMatchAt(s, j - 1, j, k, k + 2);
    }
    if EmailRegexMatches(s) {
      var i, j, k, e :| RegexMatchAt(s, i, j, k, e);
      assert EmailShapeAt(s, j, k);
    }
  }

  predicate EmailTaken(users: seq<UserRow>, email: string) {
    exists i :: 0 <= i < |users| && users[i].email == email
  }

  predicate UsernameTaken(users: seq<UserRow>, username: string) {
    exists i :: 0 <= i < |users| && users[i].username == username
  }

  /** No two users share an email or a username: what registration keeps true. */
  ghost predicate UniqueUsers(users: seq<UserRow>) {
    forall i, j :: 0 <= i < j < |users| ==> users[i].email != users[j].email && users[i].username != users[j].username
  }

  predicate FieldsPresent(body: RegisterBody) {
    !Falsy(body.email) && !Falsy(body.username) && !Falsy(body.password)
  }

  /** The field checks of `POST /api/register` (lines 45-62) all pass. */
  predicate WellFormed(body: RegisterBody) {
    && FieldsPresent(body)
    && ValidEmail(body.email.value)
    && 4 <= |body.username.value| <= 30
    && 8 <= |body.password.value| <= 30
  }

  /** The check chain of `POST /api/register`: the first failing check decides the 400,
      and only a body that passes them all reaches the insert. */
  function CheckRegistration(users: seq<UserRow>, body: RegisterBody): (r: Result<Credentials, RegisterError>)
    ensures r.Ok? <==>
      WellFormed(body) && !EmailTaken(users, body.email.value) && !UsernameTaken(users, body.username.value)
    ensures r.Ok? ==> r.value == Credentials(body.email.value, body.username.value, body.password.value)
    ensures r == Err(FieldsMissing) <==> !FieldsPresent(body)
    ensures r == Err(InvalidEmail) <==> FieldsPresent(body) && !ValidEmail(body.email.value)
    ensures r == Err(UsernameLength) <==>
      FieldsPresent(body) && ValidEmail(body.email.value) && !(4 <= |body.username.value| <= 30)
    ensures r == Err(PasswordLength) <==>
      FieldsPresent(body) && ValidEmail(body.email.value) && 4 <= |body.username.value| <= 30 &&
      !(8 <= |body.password.value| <= 30)
    ensures r == Err(EmailExists) <==> WellFormed(body) && EmailTaken(users, body.email.value)
    ensures r == Err(UsernameExists) <==>
      WellFormed(body) && !EmailTaken(users, body.email.value) && UsernameTaken(users, body.username.value)
  {
    if !FieldsPresent(body) then Err(FieldsMissing)
    else
      var email, username, password := body.email.value, body.username.value, body.password.value;
      if !ValidEmail(email) then Err(InvalidEmail)
      else if |username| < 4 || |username| > 30 then Err(UsernameLength)
      else if |password| < 8 || |password| > 30 then Err(PasswordLength)
      else if EmailTaken(users, email) then Err(EmailExists)
      else if UsernameTaken(users, username) then Err(UsernameExists)
      else Ok(Credentials(email, username, password))
  }

  /** The index of the first user called `username`: the row `results.rows[0]` of the login query. */
  function FindUser(users: seq<UserRow>, username: Option<string>): (r: Option<nat>)
    ensures r.None? <==> username.None? || !UsernameTaken(users, username.value)
    ensures r.Some? ==>
      && r.value < |users|
      && Some(users[r.value].username) == username
      && (forall i :: 0 <= i < r.value ==> Some(users[i].username) != username)
  {
    if username.None? || users == [] then None
    else if users[0].username == username.value then Some(0)
    else
      var rest := FindUser(users[1..], username);
      assert forall i :: 1 <= i < |users| ==> users[i] == users[1..][i - 1];
      if rest.None? then None else Some(rest.value + 1)
  }

  /** The reply of `POST /api/login`: 401 with one message whether the user is unknown or
      the password is wrong, otherwise `{ success: true }`. */
  function LoginResult(users: seq<UserRow>, username: Option<string>, password: string): (r: Response)
    ensures r == Response(200, true, "") || r == Response(401, false, LoginFailure)
    ensures r.success ==>
      exists i :: 0 <= i < |users| && Some(users[i].username) == username && Matches(password, users[i].password)
    ensures UniqueUsers(users) && r.status == 401 ==>
      forall i :: 0 <= i < |users| && Some(users[i].username) == username ==> !Matches(password, users[i].password)
  {
    match FindUser(users, username)
    case None => Response(401, false, LoginFailure)
    case Some(i) =>
      if Matches(password, users[i].password) then Response(200, true, "") else Response(401, false, LoginFailure)
  }

  /** The row registration inserts: the password only as its digest. */
  function NewUser(c: Credentials, salt: nat): (row: UserRow)
    ensures row.email == c.email && row.username == c.username
    ensures Matches(c.password, row.password)
  {
    UserRow(c.email, c.username, Hash(c.password, salt))
  }

  /** A user that registration accepted can log in straight away with the same username and
      password, as the registration page does. */
  lemma RegisterThenLogin(users: seq<UserRow>, body: RegisterBody, salt: nat)
    requires CheckRegistration(users, body).Ok?
    ensures var c := CheckRegistration(users, body).value;
      LoginResult(users + [NewUser(c, salt)], Some(c.username), c.password) == Response(200, true, "")
  {
    var c := CheckRegistration(users, body).value;
    var after := users + [NewUser(c, salt)];
    assert after[|users|].username == c.username;
    assert UsernameTaken(after, c.username);
    assert forall i :: 0 <= i < |users| ==> after[i] == users[i];
    assert FindUser(after, Some(c.username)) == Some(|users|);
  }

  /** The two tables of the Postgres server and its request handlers. */
  class Store {
    var users: seq<UserRow>
    var mapEntries: seq<EntryRow>

    ghost predicate Valid()
      reads this
    {
      UniqueUsers(users)
    }

    constructor (entries: seq<EntryRow>)
      ensures Valid() && users == [] && mapEntries == entries
    {
      users := [];
      mapEntries := entries;
    }

    /** `POST /api/register`: on the first failing check a 400 with its message and no write;
        otherwise exactly one row `(email, username, Hash(password))` is appended. */
    method Register(body: RegisterBody, salt: nat) returns (resp: Response)
      requires Valid()
      modifies this
      ensures Valid()
      ensures mapEntries == old(mapEntries)
      ensures match CheckRegistration(old(users), body)
        case Ok(c) =>
          users == old(users) + [NewUser(c, salt)] && resp == Response(200, true, "Registration successful!")
        case Err(e) =>
          users == old(users) && resp == Response(400, false, ErrorMessage(e))
    {
      match CheckRegistration(users, body)
      case Ok(c) =>
        var row := NewUser(c, salt);
        assert forall i :: 0 <= i < |users| ==> users[i].email != row.email && users[i].username != row.username;
        users := users + [row];
        resp := Response(200, true, "Registration successful!");
      case Err(e) =>
        resp := Response(400, false, ErrorMessage(e));
    }

    /** `POST /api/login`: success exactly when a user of that name exists and the password
        matches its digest; any other case is the same 401. */
    method Login(username: Option<string>, password: string) returns (resp: Response)
      requires Valid()
      ensures resp.success <==>
        exists i :: 0 <= i < |users| && Some(users[i].username) == username && Matches(password, users[i].password)
      ensures resp == if resp.success then Response(200, true, "") else Response(401, false, LoginFailure)
    {
      resp := LoginResult(users, username, password);
    }

    /** `GET /api/entries`: every row when no username (or an empty one) is given, otherwise
        exactly the rows of that username, each as often as the table holds it. */
    method GetEntries(username: Option<string>) returns (rows: seq<EntryRow>)
      ensures Falsy(username) ==> rows == mapEntries
      ensures !Falsy(username) ==>
        forall e :: multiset(rows)[e] == if e.username == username then multiset(mapEntries)[e] else 0
    {
      rows := EntriesQuery(mapEntries, username);
    }

    /** `GET /api/users`: every row of `users`, password digests included. */
    method GetUsers() returns (rows: seq<UserRow>)
      ensures rows == users
    {
      rows := users;
    }

    /** `POST /api/entries`: appends one row with the given fields, unvalidated, an absent
        field bound as NULL; nothing else changes. */
    method PostEntry(username: Option<string>, text: Option<string>, lat: Option<real>, lng: Option<real>)
      returns (resp: Response)
      requires Valid()
      modifies this
      ensures Valid()
      ensures users == old(users)
      ensures mapEntries == old(mapEntries) + [EntryRow(username, lat, lng, text)]
      ensures resp == Response(200, true, "")
    {
      mapEntries := mapEntries + [EntryRow(username, lat, lng, text)];
      resp := Response(200, true, "");
    }

    /** `GET /api/leaderboard`: at most five users with their true entry counts, by decreasing count. */
    method GetLeaderboard() returns (board: seq<LeaderRow>)
      ensures IsLeaderboard(mapEntries, board)
    {
      board := Leaderboard(mapEntries);
      LeaderboardCorrect(mapEntries);
    }
  }
}
