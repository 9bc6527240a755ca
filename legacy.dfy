/** The earlier MySQL server (server.js): the same routes as the Postgres server, but
    registration validates no field and its insert leaves the email out. */
module Legacy {
  import opened Common
  import opened Passwords
  import opened Tables

  /** A row of `users`; both text columns may be NULL. */
  datatype UserRow = UserRow(email: Option<string>, username: Option<string>, password: Digest)

  /** The JSON body of `POST /api/register`; a field may be absent. */
  datatype RegisterBody = RegisterBody(email: Option<string>, username: Option<string>, password: Option<string>)

  /** Why registration fails: hashing an absent password throws (caught as a 500), or a duplicate. */
  datatype RegisterError = HashFailed | EmailExists | UsernameExists

  function ErrorResponse(e: RegisterError): Response {
    match e
    case HashFailed => Response(500, false, "Internal server error.")
    case EmailExists => Response(400, false, "Email already exists.")
    case UsernameExists => Response(400, false, "Username already exists.")
  }

  const LoginFailure := "Invalid username or password."

  /** `SELECT * FROM users WHERE email = ?` finds a row; an absent email is bound as NULL,
      and `= NULL` matches no row. */
  predicate EmailTaken(users: seq<UserRow>, email: Option<string>) {
    email.Some? && exists i :: 0 <= i < |users| && users[i].email == email
  }

  /** `SELECT * FROM users WHERE username = ?` finds a row (NULL matches none). */
  predicate UsernameTaken(users: seq<UserRow>, username: Option<string>) {
    username.Some? && exists i :: 0 <= i < |users| && users[i].username == username
  }

  /** No two users share a (non-NULL) username: what registration keeps true. */
  ghost predicate UniqueUsernames(users: seq<UserRow>) {
    forall i, j :: 0 <= i < j < |users| && users[i].username.Some? ==> users[i].username != users[j].username
  }

  /** The checks of `POST /api/register`, in order: hashing (which throws on an absent
      password), the email lookup, the username lookup. There is no format or length check. */
  function CheckRegistration(users: seq<UserRow>, body: RegisterBody): (r: Option<RegisterError>)
    ensures r.None? <==>
      body.password.Some? && !EmailTaken(users, body.email) && !UsernameTaken(users, body.username)
    ensures r == Some(HashFailed) <==> body.password.None?
    ensures r == Some(EmailExists) <==> body.password.Some? && EmailTaken(users, body.email)
    ensures r == Some(UsernameExists) <==>
      body.password.Some? && !EmailTaken(users, body.email) && UsernameTaken(users, body.username)
  {
    if body.password.None? then Some(HashFailed)
    else if EmailTaken(users, body.email) then Some(EmailExists)
    else if UsernameTaken(users, body.username) then Some(UsernameExists)
    else None
  }

  /** The row the insert writes: `(username, password)` only, so its email is NULL. */
  function NewUser(username: Option<string>, password: string, salt: nat): (row: UserRow)
    ensures row.email.None? && row.username == username
    ensures Matches(password, row.password)
  {
    UserRow(None, username, Hash(password, salt))
  }

  /** A row this handler inserts never changes what the email lookup finds, for any email:
      a user it created never makes a later registration fail with "Email already exists.". */
  lemma InsertKeepsEmailLookup(users: seq<UserRow>, username: Option<string>, password: string, salt: nat, email: Option<string>)
    ensures EmailTaken(users + [NewUser(username, password, salt)], email) == EmailTaken(users, email)
  {
    var after := users + [NewUser(username, password, salt)];
    assert forall i :: 0 <= i < |users| ==> after[i] == users[i];
    if EmailTaken(after, email) {
      var i :| 0 <= i < |after| && after[i].email == email;
      assert i < |users|;
    }
  }

  /** On a table whose rows all came from this handler, no registration is refused for its email. */
  lemma EmaillessTableNeverBlocks(users: seq<UserRow>, body: RegisterBody)
    requires forall i :: 0 <= i < |users| ==> users[i].email.None?
    ensures CheckRegistration(users, body) != Some(EmailExists)
  {
  }

  /** The first row whose username is `username`: `results[0]` of the login query. */
  function FindUser(users: seq<UserRow>, username: Option<string>): (r: Option<nat>)
    ensures r.None? <==> !UsernameTaken(users, username)
    ensures r.Some? ==>
      && r.value < |users|
      && users[r.value].username == username
      && (forall i :: 0 <= i < r.value ==> users[i].username != username)
  {
    if username.None? || users == [] then None
    else if users[0].username == username then Some(0)
    else
      var rest := FindUser(users[1..], username);
      assert forall i :: 1 <= i < |users| ==> users[i] == users[1..][i - 1];
      if rest.None? then None else Some(rest.value + 1)
  }

  /** The reply of `POST /api/login`. */
  function LoginResult(users: seq<UserRow>, username: Option<string>, password: string): (r: Response)
    ensures r == Response(200, true, "") || r == Response(401, false, LoginFailure)
    ensures r.success ==>
      username.Some? &&
      exists i :: 0 <= i < |users| && users[i].username == username && Matches(password, users[i].password)
    ensures UniqueUsernames(users) && username.Some? && r.status == 401 ==>
      forall i :: 0 <= i < |users| && users[i].username == username ==> !Matches(password, users[i].password)
  {
    match FindUser(users, username)
    case None => Response(401, false, LoginFailure)
    case Some(i) =>
      if Matches(password, users[i].password) then Response(200, true, "") else Response(401, false, LoginFailure)
  }

  /** With no password length check, a user who registered a password longer than 72 bytes
      can log in with its first 72 bytes alone. */
  lemma PasswordPrefixLogsIn(users: seq<UserRow>, body: RegisterBody, salt: nat, prefix: string, extra: string)
    requires CheckRegistration(users, body).None? && body.username.Some?
    requires body.password == Some(prefix + extra) && |Utf8(prefix)| == KeyBytes
    ensures LoginResult(users + [NewUser(body.username, prefix + extra, salt)], body.username, prefix)
         == Response(200, true, "")
  {
    var after := users + [NewUser(body.username, prefix + extra, salt)];
    assert after[|users|].username == body.username;
    assert UsernameTaken(after, body.username);
    assert forall i :: 0 <= i < |users| ==> after[i] == users[i];
    assert FindUser(after, body.username) == Some(|users|);
    TailIgnored(prefix, extra, salt);
  }

  /** The two tables of the MySQL server and its request handlers. */
  class Store {
    var users: seq<UserRow>
    var mapEntries: seq<EntryRow>

    /** Usernames are unique, and no row has an email: the insert never writes one. */
    ghost predicate Valid()
      reads this
    {
      UniqueUsernames(users) && forall i :: 0 <= i < |users| ==> users[i].email.None?
    }

    constructor (entries: seq<EntryRow>)
      ensures Valid() && users == [] && mapEntries == entries
    {
      users := [];
      mapEntries := entries;
    }

    /** `POST /api/register`: a duplicate email, then a duplicate username, answers 400 and
        an absent password 500, all with no write; otherwise one row `(NULL, username,
        Hash(password))` is appended. */
    method Register(body: RegisterBody, salt: nat) returns (resp: Response)
      requires Valid()
      modifies this
      ensures Valid()
      ensures mapEntries == old(mapEntries)
      ensures match CheckRegistration(old(users), body)
        case None =>
          users == old(users) + [NewUser(body.username, body.password.value, salt)] &&
          resp == Response(200, true, "")
        case Some(e) =>
          users == old(users) && resp == ErrorResponse(e)
      ensures resp != ErrorResponse(EmailExists)
    {
      EmaillessTableNeverBlocks(users, body);
      match CheckRegistration(users, body)
      case None =>
        var row := NewUser(body.username, body.password.value, salt);
        assert row.username.Some? ==> forall i :: 0 <= i < |users| ==> users[i].username != row.username;
        users := users + [row];
        resp := Response(200, true, "");
      case Some(e) =>
        resp := ErrorResponse(e);
    }

    /** `POST /api/login`: success exactly when a user of that name exists and the password
        matches its digest; otherwise the same 401. */
    method Login(username: Option<string>, password: string) returns (resp: Response)
      requires Valid()
      ensures resp.success <==>
        username.Some? &&
        exists i :: 0 <= i < |users| && users[i].username == username && Matches(password, users[i].password)
      ensures resp == if resp.success then Response(200, true, "") else Response(401, false, LoginFailure)
    {
      resp := LoginResult(users, username, password);
    }

    /** `GET /api/entries`: every row, or exactly the rows of the given username. */
    method GetEntries(username: Option<string>) returns (rows: seq<EntryRow>)
      ensures Falsy(username) ==> rows == mapEntries
      ensures !Falsy(username) ==>
        forall e :: multiset(rows)[e] == if e.username == username then multiset(mapEntries)[e] else 0
    {
      rows := EntriesQuery(mapEntries, username);
    }

    /** `GET /api/users`: every row of `users`, password digests included. */
    method GetUsers() returns (rows: seq<UserRow>)
      ensures rows == users
    {
      rows := users;
    }

    /** `POST /api/entries`: appends one unvalidated row, an absent field bound as NULL;
        nothing else changes. */
    method PostEntry(username: Option<string>, text: Option<string>, lat: Option<real>, lng: Option<real>)
      returns (resp: Response)
      requires Valid()
      modifies this
      ensures Valid()
      ensures users == old(users)
      ensures mapEntries == old(mapEntries) + [EntryRow(username, lat, lng, text)]
      ensures resp == Response(200, true, "")
    {
      mapEntries := mapEntries + [EntryRow(username, lat, lng, text)];
      resp := Response(200, true, "");
    }

    /** `GET /api/leaderboard`: at most five users with their true entry counts, by decreasing count. */
    method GetLeaderboard() returns (board: seq<LeaderRow>)
      ensures IsLeaderboard(mapEntries, board)
    {
      board := Leaderboard(mapEntries);
      LeaderboardCorrect(mapEntries);
    }
  }
}
