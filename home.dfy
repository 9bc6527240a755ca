/** The home page (frontend/home.js): logging out, the ten-minute cooldown between entries,
    the checks an entry passes before it is posted, and what a successful post writes to
    `localStorage`. Times are integer milliseconds; `Date.now()` is a parameter. */
module Home {
  import opened Common
  import opened Storage
  import opened Grid

  /** `10 * 60 * 1000` */
  const CooldownMs := 600000
  const MinuteMs := 60000
  const MaxTextLength := 100
  /** The side of the square whose id is sent with an entry. */
  const EntrySquareSize: real := 0.01

  /** The storage key `canLogEntry` reads: `lastEntryTime_<user>`. */
  function CooldownKey(user: string): string {
    "lastEntryTime_" + user
  }

  /** The key the post handler actually writes. */
  const WrittenKey := "lastEntryTime"

  /** `canLogEntry()` at time `now`: no (or an empty) stored time allows an entry; otherwise
      the stored text is read with `parseInt` (no radix), and a text that is not a number
      makes the difference NaN, which blocks. */
  function CanLogEntry(items: map<string, string>, user: string, now: int): (ok: bool)
    ensures CooldownKey(user) !in items ==> ok
    ensures CooldownKey(user) in items && ParseInt(items[CooldownKey(user)], 0).Some? ==>
      (ok <==> now - ParseInt(items[CooldownKey(user)], 0).value >= CooldownMs)
  {
    var key := CooldownKey(user);
    if key !in items || items[key] == "" then true
    else
      match ParseInt(items[key], 0)
      case None => false
      case Some(t) => now - t >= CooldownMs
  }

  /** With the time `t` stored as `Date.now().toString()` does, an entry is allowed exactly
      when ten minutes have passed since `t`. */
  lemma CooldownIffElapsed(items: map<string, string>, user: string, t: int, now: int)
    requires CooldownKey(user) in items && items[CooldownKey(user)] == IntToString(t)
    ensures CanLogEntry(items, user, now) <==> now - t >= CooldownMs
  {
    ParseIntRoundTrip(t, 0);
  }

  /** `Math.ceil((600000 - elapsed) / 60000)`: the whole minutes still to wait, rounded up. */
  function MinutesLeft(elapsed: int): (m: int)
    ensures (m - 1) * MinuteMs < CooldownMs - elapsed <= m * MinuteMs
  {
    -((elapsed - CooldownMs) / MinuteMs)
  }

  /** While the cooldown blocks, between one and ten minutes are left. */
  lemma MinutesLeftRange(elapsed: int)
    requires 0 <= elapsed < CooldownMs
    ensures 1 <= MinutesLeft(elapsed) <= 10
  {
  }

  /** The `timeLeft` of the cooldown alert: the stored time read with `parseInt(…, 10)`
      (`null` when nothing is stored), `None` standing for NaN. A stored time `t` gives the
      whole minutes, rounded up, until `t` plus ten minutes. */
  function TimeLeft(items: map<string, string>, user: string, now: int): (m: Option<int>)
    ensures CooldownKey(user) !in items ==> m.None?
    ensures CooldownKey(user) in items ==>
      (m.None? <==> ParseInt(items[CooldownKey(user)], 10).None?)
    ensures CooldownKey(user) in items && m.Some? ==>
      (m.value - 1) * MinuteMs < ParseInt(items[CooldownKey(user)], 10).value + CooldownMs - now <= m.value * MinuteMs
  {
    NullIsNaN();
    var stored := if CooldownKey(user) in items then items[CooldownKey(user)] else "null";
    match ParseInt(stored, 10)
    case None => None
    case Some(t) => Some(MinutesLeft(now - t))
  }

  /** `parseInt(null, 10)` reads the text "null", which has no leading digit. */
  lemma NullIsNaN()
    ensures ParseInt("null", 10).None?
  {
    var s := "null";
    assert s[0] == 'n' && !IsWhitespace('n');
    assert TrimStart(s) == s;
    assert DigitValue('n') == 23;
    assert DigitRun(s, 10) == 0;
    assert ParseMagnitude(s, 10).None?;
  }

  /** When a stored time blocks an entry, the alert names between one and ten minutes. */
  lemma TimeLeftWhenBlocked(items: map<string, string>, user: string, t: int, now: int)
    requires CooldownKey(user) in items && items[CooldownKey(user)] == IntToString(t)
    requires t <= now && !CanLogEntry(items, user, now)
    ensures TimeLeft(items, user, now).Some?
    ensures 1 <= TimeLeft(items, user, now).value <= 10
  {
    CooldownIffElapsed(items, user, t, now);
    ParseIntRoundTrip(t, 10);
    MinutesLeftRange(now - t);
  }

  /** The position the browser reports. */
  datatype Position = Position(latitude: real, longitude: real)

  /** The body of `POST /api/entries` as the page builds it. */
  datatype EntryRequest = EntryRequest(text: string, lat: real, lng: real, username: string, squareId: string)

  /** How a click on the log-entry button ends: an early return (with its alert) or a request. */
  datatype LogOutcome =
    | CoolingDown(minutesLeft: Option<int>)
    | GeolocationUnsupported
    | TextTooLong
    | LocationUnavailable
    | TextEmpty
    | Send(request: EntryRequest)

  /** The log-entry click handler up to the request: the cooldown, geolocation support, the
      trimmed text at most 100 characters, a position, then a non-empty trimmed text. */
  function LogEntry(items: map<string, string>, user: string, now: int, geolocation: bool,
                    text: string, position: Option<Position>): (o: LogOutcome)
    ensures o.Send? <==>
      CanLogEntry(items, user, now) && geolocation && 0 < |Trim(text)| <= MaxTextLength && position.Some?
    ensures o.Send? ==>
      && o.request.text == Trim(text) && o.request.username == user
      && o.request.lat == position.value.latitude && o.request.lng == position.value.longitude
      && o.request.squareId == SquareId(position.value.latitude, position.value.longitude, EntrySquareSize)
    ensures o.CoolingDown? <==> !CanLogEntry(items, user, now)
    ensures o.CoolingDown? ==> o.minutesLeft == TimeLeft(items, user, now)
    ensures o.GeolocationUnsupported? <==> CanLogEntry(items, user, now) && !geolocation
    ensures o.LocationUnavailable? <==>
      CanLogEntry(items, user, now) && geolocation && |Trim(text)| <= MaxTextLength && position.None?
    ensures o.TextTooLong? <==> CanLogEntry(items, user, now) && geolocation && |Trim(text)| > MaxTextLength
    ensures o.TextEmpty? <==> CanLogEntry(items, user, now) && geolocation && position.Some? && Trim(text) == ""
  {
    if !CanLogEntry(items, user, now) then CoolingDown(TimeLeft(items, user, now))
    else if !geolocation then GeolocationUnsupported
    else if |Trim(text)| > MaxTextLength then TextTooLong
    else if position.None? then LocationUnavailable
    else if Trim(text) == "" then TextEmpty
    else
      var p := position.value;
      Send(EntryRequest(Trim(text), p.latitude, p.longitude, user, SquareId(p.latitude, p.longitude, EntrySquareSize)))
  }

  /** Two entries sent from points of the same 0.01-degree cell carry the same square id. */
  lemma SentSquareIdNamesCell(o1: LogOutcome, o2: LogOutcome, items: map<string, string>, user: string,
                              now: int, text: string, p1: Position, p2: Position)
    requires o1 == LogEntry(items, user, now, true, text, Some(p1)) && o1.Send?
    requires o2 == LogEntry(items, user, now, true, text, Some(p2)) && o2.Send?
    ensures o1.request.squareId == o2.request.squareId <==>
      Cell(p1.latitude, p1.longitude, EntrySquareSize) == Cell(p2.latitude, p2.longitude, EntrySquareSize)
  {
    SquareIdIffSameCell(p1.latitude, p1.longitude, p2.latitude, p2.longitude, EntrySquareSize);
  }

  /** Storage after a successful post, as the page writes it: the time goes under `lastEntryTime`. */
  function RecordEntryAsWritten(items: map<string, string>, now: nat): map<string, string> {
    items[WrittenKey := IntToString(now)]
  }

  /** The write under `lastEntryTime` never changes what `canLogEntry` decides, for any user
      and any later time: the cooldown is never armed. */
  lemma CooldownNeverArmed(items: map<string, string>, user: string, now: nat, later: int)
    ensures CanLogEntry(RecordEntryAsWritten(items, now), user, later) == CanLogEntry(items, user, later)
  {
    assert |CooldownKey(user)| > |WrittenKey|;
    assert CooldownKey(user) != WrittenKey;
  }

  /** From empty storage, a second entry right after the first is allowed. */
  lemma ImmediateSecondEntryAllowed(user: string, now: nat)
    ensures CanLogEntry(RecordEntryAsWritten(map[], now), user, now)
  {
    CooldownNeverArmed(map[], user, now, now);
  }

  /** Storage after a successful post with the key `canLogEntry` reads. */
  function RecordEntry(items: map<string, string>, user: string, now: nat): map<string, string> {
    items[CooldownKey(user) := IntToString(now)]
  }

  /** After the corrected write, the next entry is allowed exactly when ten minutes have passed. */
  lemma RecordEntryArmsCooldown(items: map<string, string>, user: string, now: nat, later: int)
    ensures CanLogEntry(RecordEntry(items, user, now), user, later) <==> later - now >= CooldownMs
  {
    CooldownIffElapsed(RecordEntry(items, user, now), user, now, later);
  }

  /** The logout button: `currentUser` is removed and nothing else changes. */
  method Logout(storage: LocalStorage)
    modifies storage
    ensures storage.items == old(storage.items) - {CurrentUserKey}
  {
    storage.RemoveItem(CurrentUserKey);
  }

  /** The storage write of a successful post, as written (home.js line 147). */
  method FinishPostAsWritten(storage: LocalStorage, now: nat)
    modifies storage
    ensures storage.items == RecordEntryAsWritten(old(storage.items), now)
  {
    storage.SetItem(WrittenKey, IntToString(now));
  }

  /** The storage write of a successful post under the key the cooldown reads. */
  method FinishPost(storage: LocalStorage, user: string, now: nat)
    modifies storage
    ensures storage.items == RecordEntry(old(storage.items), user, now)
  {
    storage.SetItem(CooldownKey(user), IntToString(now));
  }
}
