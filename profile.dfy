/** The profile page (frontend/profile.js): the username-change form and the summary of the
    user's entries. The server's reply is a parameter; timestamps are integer milliseconds. */
module Profile {
  import opened Common
  import opened Storage

  /** The new username the form sends, or `None` when the trimmed field is empty (no request). */
  function RenameRequest(field: string): (r: Option<string>)
    ensures r.None? <==> forall i :: 0 <= i < |field| ==> IsWhitespace(field[i])
    ensures r.Some? ==> r.value == Trim(field) && r.value != ""
  {
    if Trim(field) == "" then None else Some(Trim(field))
  }

  /** The JSON reply of the rename request: its `success` flag and `message`. */
  datatype RenameReply = RenameReply(success: bool, message: string)

  const EmptyNameMessage := "Please enter a new username."
  const RenamedMessage := "Username changed successfully!"
  const ErrorMessage := "An error occurred."

  /** The change-username click handler. `reply` is `None` when the request or its JSON
      fails. Returns the message shown and whether a request was sent; `currentUser` becomes
      the new name only when the reply reports success, and nothing else is written. */
  method SubmitRename(storage: LocalStorage, field: string, reply: Option<RenameReply>)
    returns (message: string, sent: bool)
    modifies storage
    ensures sent <==> RenameRequest(field).Some?
    ensures !sent ==> message == EmptyNameMessage
    ensures sent && reply.Some? && reply.value.success ==> message == RenamedMessage
    ensures sent && reply.Some? && !reply.value.success ==> message == reply.value.message
    ensures sent && reply.None? ==> message == ErrorMessage
    ensures storage.items ==
      if sent && reply.Some? && reply.value.success then old(storage.items)[CurrentUserKey := Trim(field)]
      else old(storage.items)
  {
    var name := RenameRequest(field);
    if name.None? {
      message, sent := EmptyNameMessage, false;
      return;
    }
    sent := true;
    match reply
    case None =>
      message := ErrorMessage;
    case Some(data) =>
      if data.success {
        message := RenamedMessage;
        storage.SetItem(CurrentUserKey, name.value);
      } else {
        message := data.message;
      }
  }

  /** One element of the `entries` list the page receives. */
  datatype ProfileEntry = ProfileEntry(timestamp: int, totalEntries: Option<int>)

  /** The index the `reduce` holds after visiting `entries[..n]`, starting from `entries[0]`
      and moving only on a strictly later timestamp. */
  function LatestUpTo(entries: seq<ProfileEntry>, n: nat): (r: nat)
    requires 0 < n <= |entries|
    ensures r < n
    ensures forall i :: 0 <= i < n ==> entries[i].timestamp <= entries[r].timestamp
    ensures forall i :: 0 <= i < r ==> entries[i].timestamp < entries[r].timestamp
  {
    if n == 1 then 0
    else
      var p := LatestUpTo(entries, n - 1);
      if entries[n - 1].timestamp > entries[p].timestamp then n - 1 else p
  }

  /** The index of `lastEntry`: `None` for an empty list (shown as "No entries"), otherwise the
      earliest entry whose timestamp is the largest. */
  function LatestEntry(entries: seq<ProfileEntry>): (r: Option<nat>)
    ensures r.None? <==> entries == []
    ensures r.Some? ==> r.value < |entries|
    ensures r.Some? ==> forall i :: 0 <= i < |entries| ==> entries[i].timestamp <= entries[r.value].timestamp
    ensures r.Some? ==> forall i :: 0 <= i < r.value ==> entries[i].timestamp < entries[r.value].timestamp
  {
    if entries == [] then None else Some(LatestUpTo(entries, |entries|))
  }

  /** The latest entry is unique up to ties, and ties go to the first: any index with the
      properties the result has is the result. */
  lemma LatestEntryUnique(entries: seq<ProfileEntry>, k: nat)
    requires k < |entries|
    requires forall i :: 0 <= i < |entries| ==> entries[i].timestamp <= entries[k].timestamp
    requires forall i :: 0 <= i < k ==> entries[i].timestamp < entries[k].timestamp
    ensures LatestEntry(entries) == Some(k)
  {
  }

  /** The three figures the page shows. */
  datatype Summary = Summary(entriesCount: nat, lastEntry: Option<int>, totalEntries: Option<int>)

  /** The summary of a successful entries reply: the count, the latest timestamp (`None` is
      "No entries") and the total, read from the first entry's `total_entries` (0 for an
      empty list; `None` where the field is absent). */
  function Summarize(entries: seq<ProfileEntry>): (s: Summary)
    ensures s.entriesCount == |entries|
    ensures s.lastEntry.None? <==> entries == []
    ensures s.lastEntry.Some? ==>
      (exists i :: 0 <= i < |entries| && entries[i].timestamp == s.lastEntry.value) &&
      (forall i :: 0 <= i < |entries| ==> entries[i].timestamp <= s.lastEntry.value)
    ensures entries == [] ==> s.totalEntries == Some(0)
  {
    var latest := LatestEntry(entries);
    var last := if latest.None? then None else Some(entries[latest.value].timestamp);
    var total := if |entries| > 0 then entries[0].totalEntries else Some(0);
    Summary(|entries|, last, total)
  }
}
