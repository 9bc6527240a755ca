# A verified model of the location-logging app's core

The app lets signed-in users log short text entries at their current position. It draws a
map grid, colours squares by their owner and shows a leaderboard. This project models the
parts of it that hold logic:

- **the two servers' request handlers**
  - `backend/server.js` is the Postgres server.
  - `server.js` is the earlier MySQL server.
  - Both are modelled as a `Store` class whose `users` and `mapEntries` sequences stand for
    the two tables. Registration, login, the entries listing, adding an entry, the users
    listing and the leaderboard are methods.
  - The validation chain, the queries and the leaderboard are functions over the tables.
- **the browser pages**
  - `frontend/auth.js`: the registration form's checks and what is stored as
    `currentUser`.
  - `frontend/home.js`: logout, the ten-minute entry cooldown, the entry checks and the
    square id sent with an entry.
  - `frontend/global.js`: square ids, snapped grid bounds, username colours and the
    in-place colour dictionaries.
  - `frontend/profile.js`: the rename form and the entries summary.
  - `localStorage` is a class with one `map` field that the pages update in place.

Password hashing is an ideal salted hash, modelled by its 72-byte key: the first 72 bytes of
the password's UTF-8 encoding. A password of at most 72 bytes is matched by
itself and by no other password of at most 72 bytes. Any two passwords that share their first
72 bytes match each other's digests. The salt is a parameter that stands for bcrypt's
randomness.

The JavaScript built-ins the code relies on are written out in `Common`:

- falsy request fields;
- the white-space set shared by `\s` and `trim`;
- `parseInt` with and without a radix, where NaN is `None`;
- decimal formatting of integers.

SQL leaves row order open in two places, and the model specifies both up to that freedom:

- The entries listing is specified by the multiset of rows it returns.
- The leaderboard is specified by a predicate, `Tables.IsLeaderboard`, that allows any
  order among equal counts. The computed leaderboard (group, sort by count, take five) is
  proved to satisfy it.

Two facts about the code that the model keeps:

- The model takes SQL `=` on usernames and emails (`WHERE username = $1`, `WHERE username
  = ?`, and the same for `email`) as exact equality. That is what Postgres's default
  collation does, but not what MySQL's default collations do. Neither server lower-cases or
  otherwise normalises the values itself.
- The login reply is `{ success: true }` with no `username` field (backend/server.js:123,
  server.js:94). The page that reads that field is covered under Findings.

## Model

| member | source | states |
|---|---|---|
| Common.Trim | frontend/auth.js:24-27 | The trimmed text is an infix `s[i..j]` of the input, and every character outside it is white space. It is empty or starts and ends with a non-white-space character. It is empty exactly when the input is all white space. A text without white space is unchanged. |
| Common.ParseIntRoundTrip | frontend/home.js:70 | `parseInt`, with no radix or with radix 10, reads back exactly the integer whose decimal text it is given. |
| Common.IntToStringInjective | frontend/global.js:117-121 | Two integers with the same decimal text are equal. |
| Passwords.Key | backend/server.js:65 | The key is a prefix of the UTF-8 encoding, and its length is the encoding's length capped at 72 bytes. |
| Passwords.Hash | backend/server.js:65 | The digest matches the password it was made from. When that password has at most 72 bytes, no other password of at most 72 bytes matches it. |
| Passwords.Utf8Injective | server.js:39 | Two strings with the same UTF-8 encoding are equal. |
| Passwords.TailIgnored | server.js:88 | A password of exactly 72 bytes matches the digest of every password that extends it. |
| Storage.LocalStorage.SetItem | frontend/auth.js:82 | The key now maps to the value and every other entry is unchanged. |
| Storage.LocalStorage.RemoveItem | frontend/home.js:19 | The key is gone and every other entry is unchanged. |
| Tables.RowsOf | backend/server.js:133-144 | The filtered query returns each row of that username as often as the table holds it, and no other row. Rows with a NULL username never match. Its length is the user's row count. |
| Tables.EntriesQuery | backend/server.js:129-136 | With no username or an empty one, the query returns the whole table. Otherwise it returns each row of that username as often as the table holds it and no other row, and its length is the user's row count. |
| Tables.Tally | backend/server.js:181-183 | The groups are one row per username that owns an entry, each with that username's true count, and no row twice. Rows with a NULL username form one group of their own. |
| Tables.Leaderboard | backend/server.js:180-186 | The board has at most five rows and is sorted by non-increasing count. Every row is one of the group rows. With fewer than five rows, it holds all the groups. |
| Tables.SortByCount | backend/server.js:184 | The output is sorted by non-increasing count and is a permutation of the input. |
| Tables.LeaderboardCorrect | backend/server.js:179-196 | The leaderboard has at most five rows. Each row is a real user with its exact entry count, and no user appears twice. Counts are non-increasing. A user left out means the board is full and every shown count is at least that user's count. |
| Tables.LeaderboardCountsMatchListing | backend/server.js:128-146 | For a board row whose username is neither NULL nor empty, the count the leaderboard shows equals the number of rows the entries listing returns for that user. |
| Backend.ValidEmailIffRegexMatches | backend/server.js:50-53 | The email check accepts exactly the strings in which the unanchored pattern `\S+@\S+\.\S+` matches somewhere. |
| Backend.CheckRegistration | backend/server.js:45-85 | The checks run in order: missing field, then email pattern, then username length in [4,30], then password length in [8,30], then existing email, then existing username. Each error occurs exactly when all earlier checks pass and its own fails. Success carries the three fields. |
| Backend.FindUser | backend/server.js:107-116 | The result is the index of the first row with that username. It is absent exactly when no row has it or no username was sent. |
| Backend.NewUser | backend/server.js:88 | The inserted row keeps email and username. Its password is stored only as a digest that matches the typed password. |
| Backend.LoginResult | backend/server.js:107-123 | The reply is either `{ success: true }` or the single 401 "Invalid username or password.". Success implies some row with that username has a digest matching the password. With unique usernames, a 401 implies no row with that username matches. |
| Backend.RegisterThenLogin | backend/server.js:104-123 | After an accepted registration, logging in with the same username and password succeeds. |
| Backend.Store.Register | backend/server.js:41-101 | The first failing check answers 400 with its message and the table is unchanged. Otherwise exactly one row `(email, username, Hash(password))` is appended with a 200. Usernames and emails stay unique, and entries are untouched. |
| Backend.Store.Login | backend/server.js:104-125 | Success happens exactly when some user of that name has a digest matching the password. Every failure is the same 401 "Invalid username or password.". |
| Backend.Store.GetEntries | backend/server.js:128-146 | With no username or an empty one, the reply is the whole table unchanged. Otherwise it is exactly the rows of that username, counted with multiplicity. |
| Backend.Store.GetUsers | backend/server.js:149-160 | The reply is every user row, digests included. |
| Backend.Store.PostEntry | backend/server.js:163-176 | Exactly one unvalidated row `(username, lat, lng, text)` is appended, with each absent field stored as NULL. Existing rows and the users table are unchanged. |
| Backend.Store.GetLeaderboard | backend/server.js:179-196 | The reply satisfies `IsLeaderboard` for the current entries. |
| Legacy.CheckRegistration | server.js:35-57 | There are no format or length checks. An absent password fails hashing (500). Then an existing email answers 400, then an existing username answers 400. Any other body is accepted. An absent email or username matches no row. |
| Legacy.NewUser | server.js:59 | The inserted row has no email. It keeps the username, and its digest matches the password. |
| Legacy.InsertKeepsEmailLookup | server.js:41-59 | Appending a row this handler inserts never changes whether any email is found, so such a user never makes a later registration fail with "Email already exists.". |
| Legacy.EmaillessTableNeverBlocks | server.js:41-48 | On a table of rows this handler inserted, no registration is refused for its email. |
| Legacy.PasswordPrefixLogsIn | server.js:88-94 | A user registered with a password longer than 72 bytes logs in with its first 72 bytes alone. |
| Legacy.LoginResult | server.js:78-94 | The reply is either `{ success: true }` or the single 401 "Invalid username or password.". Success needs a username and a row of that username whose digest matches. With unique usernames, a 401 for a given username implies no row of that username matches. |
| Legacy.FindUser | server.js:78-87 | The result is the index of the first row with that username, and is absent when there is none or no username was sent. |
| Legacy.Store.Register | server.js:35-72 | A failed check answers its status and message and nothing is written. Otherwise exactly one row `(no email, username, Hash(password))` is appended with `{ success: true }`. Non-null usernames stay unique and no row ever has an email, so the reply is never "Email already exists.". |
| Legacy.Store.Login | server.js:75-96 | Success happens exactly when some user of that name has a matching digest. Otherwise the same 401 is returned. |
| Legacy.Store.GetEntries | server.js:99-117 | The reply is all rows, or exactly the rows of the given non-empty username with multiplicity. |
| Legacy.Store.GetUsers | server.js:120-131 | The reply is every user row. |
| Legacy.Store.PostEntry | server.js:134-147 | Exactly one row `(username, lat, lng, text)` is appended, with each absent field stored as NULL, and nothing else changes. |
| Legacy.Store.GetLeaderboard | server.js:150-167 | The reply satisfies `IsLeaderboard` for the current entries. |
| Grid.Cell | frontend/global.js:117-119 | The two floored quotients are the row and column of the grid cell that contains the point. |
| Grid.SquareId | frontend/global.js:117-121 | The id holds a `_`. At every `_`, the text before it is the cell's row number and the text after it is the cell's column number. |
| Grid.SquareIdIffSameCell | frontend/global.js:117-121 | Two points get the same square id exactly when they lie in the same cell. |
| Grid.SnapDown | frontend/global.js:30 | The snapped south or west edge is a grid line (a whole multiple of the square size), at most the viewport edge and less than one square below it. |
| Grid.SnapUp | frontend/global.js:31 | The snapped north or east edge is a grid line (a whole multiple of the square size), at least the viewport edge and less than one square above it. |
| Grid.SnapBounds | frontend/global.js:30-33 | The drawn grid covers the viewport on all four sides, with less than one square to spare on each. |
| Grid.FirstCodeUnit | frontend/global.js:124 | `charCodeAt(0)` of a spread character is a single UTF-16 code unit. |
| Grid.CodeUnitSumPermutation | frontend/global.js:124 | The sum of character codes is the same for any reordering of the username's characters. |
| Grid.HslForUsername | frontend/global.js:124-127 | The hue is the code-unit sum mod 360 and lies in [0,360). Saturation is 70 and lightness 50 for every username. |
| Grid.ColorForUsername | frontend/global.js:123-129 | The colour is the text `hsl(H, 70%, 50%)`, with H the decimal code-unit sum mod 360. |
| Grid.HslTextInjective | frontend/global.js:128 | Different hue, saturation or lightness values never print the same `hsl()` text. |
| Grid.ColorForUsernameFacts | frontend/global.js:123-129 | Anagram usernames get the same colour. Two usernames get the same colour exactly when their code-unit sums agree mod 360. |
| Grid.InitialColor | frontend/global.js:109 | A username's first colour is the square's colour when present and non-empty, otherwise the hash colour. It is never empty. |
| Grid.Step | frontend/global.js:107-111 | Lookups go through the dictionary's own keys and then the members every `{}` inherits. After one square, its owner's lookup is truthy and the square's id maps to what that lookup gives. The owner's entry changes only when its lookup was falsy, and then it becomes the square's initial colour. Every other square id keeps its colour-map entry. |
| Grid.Populate | frontend/global.js:106-112 | After the whole list, every listed owner's lookup is truthy. |
| Grid.PopulateSquareIds | frontend/global.js:111 | The colour map's keys are the old keys plus exactly the listed square ids. |
| Grid.PopulateKeepsColors | frontend/global.js:108-111 | Populating never removes a key from either dictionary. A username whose lookup was truthy keeps the same lookup. |
| Grid.PopulateUnmentionedUser | frontend/global.js:106-112 | A username no square mentions keeps its entry exactly as it was. |
| Grid.PopulateUnmentionedSquare | frontend/global.js:106-112 | A square id that is not in the list keeps its colour-map entry exactly as it was. |
| Grid.FirstColorWins | frontend/global.js:108-110 | A username whose lookup was falsy ends with an own entry: the initial colour of its first square in the list. |
| Grid.LastSquareWins | frontend/global.js:111 | Each listed square id ends mapped to what the owner of its last square finally looks up to. |
| Grid.PopulateInheritedUser | frontend/global.js:108-110 | A username that names an inherited member of `{}` (`constructor`, `toString`, `__proto__`, ...) and has no own entry never gets one, because its lookup is already truthy. |
| Grid.InheritedOwnerSquare | frontend/global.js:108-111 | A square whose last owner is such a username is mapped to that inherited member, not to a colour. |
| Grid.ColorState.constructor | frontend/global.js:12-13 | Both dictionaries start empty. |
| Grid.ColorState.PopulateColorMap | frontend/global.js:106-115 | The loop leaves both dictionaries exactly as `Populate` describes, so all the lemmas above apply to it. |
| Home.CanLogEntry | frontend/home.js:64-74 | With nothing stored under `lastEntryTime_<user>`, an entry is allowed. With a stored number, an entry is allowed exactly when `now - t >= 600000`. |
| Home.CooldownIffElapsed | frontend/home.js:70-73 | When the time `t` is stored as decimal text, an entry is allowed exactly when ten minutes have passed since `t`. |
| Home.MinutesLeft | frontend/home.js:91 | The result is the ceiling of the remaining milliseconds over 60000. |
| Home.MinutesLeftRange | frontend/home.js:89-92 | While 0 <= elapsed < 600000, the minutes left lie in [1,10]. |
| Home.TimeLeft | frontend/home.js:89-91 | Nothing stored, or a stored text `parseInt` cannot read, gives NaN. A stored time `t` gives the least whole number of minutes that covers the time left until `t` plus ten minutes. |
| Home.TimeLeftWhenBlocked | frontend/home.js:89-92 | When a stored time `t` that is not after `now` blocks an entry, the alert shows a number of minutes in [1,10], never NaN. A time in the future is not covered. |
| Home.LogEntry | frontend/home.js:86-126 | A request is sent exactly when the cooldown allows it, geolocation exists, the trimmed text has 1 to 100 characters and a position arrives. Otherwise the first failing check decides the alert: cooldown, missing geolocation, text over 100 characters, no position, then empty text. The cooldown alert shows exactly `TimeLeft`. The request carries the trimmed text, the position, the user and the id of the 0.01 cell that holds the position. |
| Home.SentSquareIdNamesCell | frontend/home.js:124-125 | Two sent entries carry the same square id exactly when their positions lie in the same cell. |
| Home.CooldownNeverArmed | frontend/home.js:147 | The write under `lastEntryTime` never changes what `canLogEntry` decides, for any user or time. |
| Home.ImmediateSecondEntryAllowed | frontend/home.js:147 | Starting from empty storage, an entry at the same instant as a successful post is still allowed. |
| Home.RecordEntryArmsCooldown | frontend/home.js:65-73 | After the time is written under `lastEntryTime_<user>`, the next entry is allowed exactly when ten minutes have passed. |
| Home.Logout | frontend/home.js:18-21 | `currentUser` is removed and nothing else changes. |
| Home.FinishPostAsWritten | frontend/home.js:147 | Storage gains `lastEntryTime` set to the post time and nothing else changes. |
| Home.FinishPost | frontend/home.js:147 | Storage gains `lastEntryTime_<user>` set to the post time and nothing else changes. |
| Auth.ValidateRegistration | frontend/auth.js:24-51 | The checks run in order: empty field (email and username trimmed), then any white space, then username length in [4,30], then password length in [8,25]. Each alert occurs exactly when its check is the first to fail. The request carries the trimmed email and username, the untrimmed password, and a `null` inviter when it trims to empty. |
| Auth.PasswordNeverTrimmed | frontend/auth.js:26-39 | A sent password is exactly what was typed and holds no white space, so a leading or trailing blank is refused, not trimmed. |
| Auth.ClientChecksImplyServerFieldChecks | frontend/auth.js:42-51 | The Postgres server can refuse a request the page sends only for the email pattern or a duplicate, never for a missing field or a length. |
| Auth.EmailPatternOnlyOnServer | frontend/auth.js:29-51 | The page sends the email "abcd" and the server refuses it as invalid. |
| Auth.SubmitRegistration | frontend/auth.js:22-90 | A request is sent exactly when validation passes. The trimmed username becomes `currentUser` only after both the registration and the automatic login succeed, and storage is otherwise unchanged. |
| Auth.SubmitLogin | frontend/auth.js:95-120 | On an `ok` reply, `currentUser` becomes the reply's `username`, or the text "undefined" when the field is absent. Otherwise storage is unchanged. |
| Auth.LoginStoresUndefined | frontend/auth.js:118-119 | Every successful login against the Postgres server stores "undefined" as the current user. |
| Auth.SubmitLoginCorrected | frontend/auth.js:118-119 | On an `ok` reply, `currentUser` becomes the trimmed username that was typed. |
| Auth.CorrectedLoginStoresRegisteredUser | frontend/auth.js:118-119 | After a successful login, the username the corrected handler stores belongs to a registered user whose digest matched the password. |
| Profile.RenameRequest | frontend/profile.js:5-12 | No request is sent exactly when the field is all white space. Otherwise the trimmed, non-empty name is sent. |
| Profile.SubmitRename | frontend/profile.js:4-32 | An empty name shows its message and sends nothing. `currentUser` becomes the new name only when the reply reports success. Otherwise it shows the server's message or "An error occurred." and storage is unchanged. |
| Profile.LatestUpTo | frontend/profile.js:51-53 | After the first n entries, the reduce holds an index whose timestamp is at least every visited one and strictly later than every earlier one. |
| Profile.LatestEntry | frontend/profile.js:51-55 | There is no latest entry exactly when the list is empty. Otherwise the result is the earliest index with the largest timestamp. |
| Profile.LatestEntryUnique | frontend/profile.js:51-53 | Any index with the largest timestamp and no equal one before it is the reduce's result. |
| Profile.Summarize | frontend/profile.js:49-60 | The count is the list length. The last entry is absent ("No entries") exactly when the list is empty, and otherwise is a timestamp of the list that no entry exceeds. The total is 0 for an empty list. |

## Left out

- Database and hashing failures are not modelled: the 500 replies from a failed query or insert. The one exception is hashing an absent password in `server.js`, which is modelled.
- Concurrency between requests is not modelled, so each handler runs atomically against the tables.
- Express, the database drivers, CORS, body parsing and `app.listen` are plumbing.
- Request fields are strings, except `lat` and `lng`, which are numbers. Any of them may be absent, and an absent field is bound as NULL. A field of another JSON type (a string `lat`, an array, an object) is not modelled.
- Whether the tables' schemas accept NULL is not part of the code. A NOT NULL column would turn an insert with an absent field into a 500, and that reply is not modelled.
- Passwords.Hash: bcrypt is taken to be collision-free on its 72-byte keys. How either library treats a U+0000 character inside a password is not modelled. Strings are sequences of Unicode scalar values, so lone UTF-16 surrogates cannot occur.
- Grid.Step: a square id `__proto__` is written as an own key. In the page, assigning `colorMap["__proto__"]` changes the object's prototype instead.
- Lengths count Unicode characters, while JavaScript's `.length` counts UTF-16 code units. They differ for characters outside the Basic Multilingual Plane.
- Usernames and emails compare by exact equality in both servers. For `server.js` this is not modelled: MySQL's default collations ignore case and accents, and the PAD SPACE ones also ignore trailing spaces. So a lookup there can find a row whose name differs in case, accents or trailing spaces, and that row makes a registration fail as a duplicate.
- Coordinates are exact reals, not IEEE doubles. The float accumulation in the grid-drawing loop of frontend/global.js:35-36 is left out with the Leaflet drawing.
- Grid.Cell: requires a positive square size. The pages only pass the constants 0.005 and 0.01, so division by zero never arises.
- The DOM, Leaflet, `fetch`, geolocation, alerts, the spinner, redirects and menu toggles are left out. Server replies and browser facts are parameters instead: `registerOk`, `loginOk`, `reply`, `geolocation`, `position`, and `now` for `Date.now()`.
- Home.LogEntry: the text is read once, although the page reads the text box a second time after the position arrives.
- Home.CanLogEntry: the user is the stored `currentUser` text. The case where the page runs without one (it redirects) is not modelled.
- Profile.Summarize: timestamps are integers of milliseconds. Invalid dates, which compare as NaN, and `toLocaleString` formatting are not modelled.
- Legacy.Store.Register: an absent username is inserted as NULL. Whether the table's schema accepts that cannot be told from the code.
- Legacy.Store.Login and Backend.Store.Login: a missing password makes `bcrypt.compare` throw outside any handler, so no reply is sent. The model takes the password as a present string.

## Findings

| source | as written | input that shows it | evidently intended | confidence | as-written member | corrected member |
|---|---|---|---|---|---|---|
| frontend/home.js:147 | After a successful post, the time is written under `lastEntryTime`, but `canLogEntry` (line 65) reads `lastEntryTime_<user>`. | Empty storage, a successful post at time t, then another click at time t: the entry is allowed. | Write the time under `lastEntryTime_<user>`, so that a second entry within ten minutes is refused. | high; not executed | Home.CooldownNeverArmed | Home.RecordEntryArmsCooldown |
| frontend/auth.js:119 | After a successful login, the page stores `data.username`. Against backend/server.js and server.js as given, the login reply has no `username` field (backend/server.js:123, server.js:94). The pages also call routes neither server defines (frontend/profile.js:15, frontend/global.js:91, 152, 169), so the server they are deployed against is not among these files and its reply may differ. | Any successful login against either server as given, for example right after registering "bob123": `currentUser` becomes the text "undefined". | Store the name of the user who logged in (the trimmed input, or a `username` returned by the server). | medium; not executed | Auth.LoginStoresUndefined | Auth.CorrectedLoginStoresRegisteredUser |
