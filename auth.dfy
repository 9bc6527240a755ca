/** The sign-in page (frontend/auth.js): the checks the registration form runs before any
    request, and which username the page stores as `currentUser` after registering or
    logging in. Server replies are parameters. */
module Auth {
  import opened Common
  import opened Storage
  import opened Passwords
  import Backend

  /** The raw values of the registration form's four inputs. */
  datatype RegisterForm = RegisterForm(email: string, username: string, password: string, inviter: string)

  /** The body the page posts to `/api/register`; an empty inviter is sent as `null`. */
  datatype RegisterRequest = RegisterRequest(email: string, username: string, password: string, inviter: Option<string>)

  /** The alerts of the form checks, in the order they are tested. */
  datatype FormError = FieldsRequired | ContainsSpaces | UsernameLength | PasswordLength

  function FormMessage(e: FormError): string {
    match e
    case FieldsRequired => "All fields are required."
    case ContainsSpaces => "Username, email, and password cannot contain spaces."
    case UsernameLength => "Username must be between 4 and 30 characters long."
    case PasswordLength => "Password must be between 8 and 25 characters long."
  }

  /** All three fields are non-empty once email and username are trimmed (the password is not). */
  predicate FieldsFilled(f: RegisterForm) {
    Trim(f.email) != "" && Trim(f.username) != "" && f.password != ""
  }

  /** None of the three sent values holds white space. */
  predicate NoSpaces(f: RegisterForm) {
    !HasWhitespace(Trim(f.username)) && !HasWhitespace(Trim(f.email)) && !HasWhitespace(f.password)
  }

  /** The registration submit handler up to the request: the first failing check decides
      the alert and nothing is sent; otherwise the trimmed values are posted. */
  function ValidateRegistration(f: RegisterForm): (r: Result<RegisterRequest, FormError>)
    ensures r == Err(FieldsRequired) <==> !FieldsFilled(f)
    ensures r == Err(ContainsSpaces) <==> FieldsFilled(f) && !NoSpaces(f)
    ensures r == Err(UsernameLength) <==> FieldsFilled(f) && NoSpaces(f) && !(4 <= |Trim(f.username)| <= 30)
    ensures r == Err(PasswordLength) <==>
      FieldsFilled(f) && NoSpaces(f) && 4 <= |Trim(f.username)| <= 30 && !(8 <= |f.password| <= 25)
    ensures r.Ok? <==>
      FieldsFilled(f) && NoSpaces(f) && 4 <= |Trim(f.username)| <= 30 && 8 <= |f.password| <= 25
    ensures r.Ok? ==>
      && r.value.email == Trim(f.email) && r.value.username == Trim(f.username) && r.value.password == f.password
      && (r.value.inviter.None? <==> Trim(f.inviter) == "")
      && (r.value.inviter.Some? ==> r.value.inviter.value == Trim(f.inviter))
  {
    var email, username, password := Trim(f.email), Trim(f.username), f.password;
    var inviter := if Trim(f.inviter) == "" then None else Some(Trim(f.inviter));
    if email == "" || username == "" || password == "" then Err(FieldsRequired)
    else if HasWhitespace(username) || HasWhitespace(email) || HasWhitespace(password) then Err(ContainsSpaces)
    else if |username| < 4 || |username| > 30 then Err(UsernameLength)
    else if |password| < 8 || |password| > 25 then Err(PasswordLength)
    else Ok(RegisterRequest(email, username, password, inviter))
  }

  /** A sent password has no white space, so leading or trailing blanks are refused rather than trimmed. */
  lemma PasswordNeverTrimmed(f: RegisterForm)
    requires ValidateRegistration(f).Ok?
    ensures ValidateRegistration(f).value.password == f.password
    ensures !HasWhitespace(ValidateRegistration(f).value.password)
    ensures f.password == [] || (!IsWhitespace(f.password[0]) && !IsWhitespace(f.password[|f.password| - 1]))
  {
  }

  /** The body the Postgres server receives for a request the page sends. */
  function ServerBody(req: RegisterRequest): Backend.RegisterBody {
    Backend.RegisterBody(Some(req.email), Some(req.username), Some(req.password))
  }

  /** A request the page sends passes the server's presence and length checks: the server
      can only refuse it for the email pattern or a duplicate. */
  lemma ClientChecksImplyServerFieldChecks(users: seq<Backend.UserRow>, f: RegisterForm)
    requires ValidateRegistration(f).Ok?
    ensures Backend.CheckRegistration(users, ServerBody(ValidateRegistration(f).value)).Ok? ||
      Backend.CheckRegistration(users, ServerBody(ValidateRegistration(f).value)).error in
        {Backend.InvalidEmail, Backend.EmailExists, Backend.UsernameExists}
  {
  }

  /** The page sends an email without `@`, which the server refuses. */
  lemma EmailPatternOnlyOnServer()
    ensures ValidateRegistration(RegisterForm("abcd", "abcd", "password", "")).Ok?
    ensures Backend.CheckRegistration([], ServerBody(ValidateRegistration(RegisterForm("abcd", "abcd", "password", "")).value))
         == Err(Backend.InvalidEmail)
  {
    var s := "abcd";
    forall j, k | 0 <= j < k < |s|
      ensures !Backend.EmailShapeAt(s, j, k)
    {
      assert s[j] != '@';
    }
    assert !HasWhitespace(s) by {
      forall i | 0 <= i < |s| ensures !IsWhitespace(s[i]) {
      }
    }
    assert !HasWhitespace("password") by {
      forall i | 0 <= i < |"password"| ensures !IsWhitespace("password"[i]) {
      }
    }
  }

  /** The register-then-login flow: after the registration request succeeds (`registerOk`)
      and the automatic login succeeds (`loginOk`), the typed (trimmed) username is stored;
      in every other case storage is unchanged. Returns whether the request was sent. */
  method SubmitRegistration(storage: LocalStorage, f: RegisterForm, registerOk: bool, loginOk: bool)
    returns (sent: bool)
    modifies storage
    ensures sent <==> ValidateRegistration(f).Ok?
    ensures storage.items ==
      if sent && registerOk && loginOk then old(storage.items)[CurrentUserKey := Trim(f.username)]
      else old(storage.items)
  {
    match ValidateRegistration(f)
    case Err(_) =>
      sent := false;
    case Ok(req) =>
      sent := true;
      if registerOk && loginOk {
        storage.SetItem(CurrentUserKey, req.username);
      }
  }

  /** The reply to `POST /api/login` as the page reads it: whether it was `ok`, and the
      `username` field of its JSON, when it has one. */
  datatype LoginReply = LoginReply(ok: bool, username: Option<string>)

  /** What the page makes of a server `Response`: its JSON carries no `username` field. */
  function ReplyOf(resp: Response): LoginReply {
    LoginReply(200 <= resp.status < 300, None)
  }

  /** `localStorage.setItem('currentUser', data.username)`: an absent field is stored as the
      text "undefined". */
  function StoredUsername(reply: LoginReply): string {
    match reply.username
    case None => "undefined"
    case Some(u) => u
  }

  /** The login submit handler: on an `ok` reply the reply's username is stored, otherwise
      storage is unchanged. */
  method SubmitLogin(storage: LocalStorage, reply: LoginReply)
    modifies storage
    ensures storage.items ==
      if reply.ok then old(storage.items)[CurrentUserKey := StoredUsername(reply)] else old(storage.items)
  {
    if reply.ok {
      storage.SetItem(CurrentUserKey, StoredUsername(reply));
    }
  }

  /** Against the Postgres server, every successful login stores "undefined" as the
      current user, whoever logged in. */
  lemma LoginStoresUndefined(users: seq<Backend.UserRow>, input: string, password: string)
    requires Backend.LoginResult(users, Some(Trim(input)), password).success
    ensures ReplyOf(Backend.LoginResult(users, Some(Trim(input)), password)).ok
    ensures StoredUsername(ReplyOf(Backend.LoginResult(users, Some(Trim(input)), password))) == "undefined"
  {
  }

  /** The login submit handler storing the username it logged in with. */
  method SubmitLoginCorrected(storage: LocalStorage, input: string, reply: LoginReply)
    modifies storage
    ensures storage.items ==
      if reply.ok then old(storage.items)[CurrentUserKey := Trim(input)] else old(storage.items)
  {
    if reply.ok {
      storage.SetItem(CurrentUserKey, Trim(input));
    }
  }

  /** With the corrected handler, a successful login stores the name of a registered user
      whose password matched. */
  lemma CorrectedLoginStoresRegisteredUser(users: seq<Backend.UserRow>, input: string, password: string)
    requires Backend.LoginResult(users, Some(Trim(input)), password).success
    ensures exists i :: 0 <= i < |users| && users[i].username == Trim(input) && Matches(password, users[i].password)
  {
    var i := Backend.FindUser(users, Some(Trim(input))).value;
    assert users[i].username == Trim(input);
  }
}
