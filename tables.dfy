/** The `map_entries` table and the two read queries both servers run over it:
    the entries listing (optionally for one user) and the entry-count leaderboard. */
module Tables {
  import opened Common

  /** A row of `map_entries` as `POST /api/entries` writes it: a field absent from the
      request body is bound as NULL (`None`). */
  datatype EntryRow = EntryRow(username: Option<string>, latitude: Option<real>, longitude: Option<real>, text: Option<string>)

  /** A row of the leaderboard: a username (NULL for the group of rows without one) and
      the number of its entries. */
  datatype LeaderRow = LeaderRow(username: Option<string>, entryCount: nat)

  /** The leaderboard's `LIMIT`. */
  const LeaderboardSize := 5

  /** The number of rows of `entries` that belong to `username`. */
  function CountFor(entries: seq<EntryRow>, username: Option<string>): nat {
    if entries == [] then 0
    else (if entries[0].username == username then 1 else 0) + CountFor(entries[1..], username)
  }

  /** `SELECT * FROM map_entries WHERE username = $1`: each row of `username` as often as the
      table holds it and no other row (a NULL username equals nothing). SQL leaves the order
      of the rows unspecified. */
  function RowsOf(entries: seq<EntryRow>, username: string): (r: seq<EntryRow>)
    ensures |r| == CountFor(entries, Some(username))
    ensures forall e :: multiset(r)[e] == if e.username == Some(username) then multiset(entries)[e] else 0
  {
    if entries == [] then []
    else
      var rest := RowsOf(entries[1..], username);
      assert entries == [entries[0]] + entries[1..];
      if entries[0].username == Some(username) then [entries[0]] + rest else rest
  }

  /** `GET /api/entries`: the whole table, or the rows of `username` when one is given
      (the query parameter is tested for truthiness, so an empty one lists everything). */
  function EntriesQuery(entries: seq<EntryRow>, username: Option<string>): (r: seq<EntryRow>)
    ensures Falsy(username) ==> r == entries
    ensures !Falsy(username) ==>
      |r| == CountFor(entries, username) &&
      forall e :: multiset(r)[e] == if e.username == username then multiset(entries)[e] else 0
  {
    if Falsy(username) then entries else RowsOf(entries, username.value)
  }

  /** The usernames that own at least one row. */
  ghost function UserSet(entries: seq<EntryRow>): set<Option<string>> {
    set e | e in entries :: e.username
  }

  predicate SortedByCount(rows: seq<LeaderRow>) {
    forall i, j :: 0 <= i < j < |rows| ==> rows[i].entryCount >= rows[j].entryCount
  }

  /** What `SELECT username, COUNT(*) AS entry_count FROM map_entries GROUP BY username
      ORDER BY entry_count DESC LIMIT 5` may return. Rows with equal counts may come in any
      order, and which of several users tied at the cut-off is shown is unspecified. */
  ghost predicate IsLeaderboard(entries: seq<EntryRow>, board: seq<LeaderRow>) {
    && |board| <= LeaderboardSize
    && (forall i :: 0 <= i < |board| ==>
          board[i].username in UserSet(entries) && board[i].entryCount == CountFor(entries, board[i].username))
    && (forall i, j :: 0 <= i < j < |board| ==> board[i].username != board[j].username)
    && SortedByCount(board)
    && (forall u :: u in UserSet(entries) && (forall i :: 0 <= i < |board| ==> board[i].username != u) ==>
          |board| == LeaderboardSize && forall i :: 0 <= i < |board| ==> CountFor(entries, u) <= board[i].entryCount)
  }

  /** The distinct usernames of `entries` in order of first appearance (the SQL groups). */
  function Usernames(entries: seq<EntryRow>): (us: seq<Option<string>>)
    ensures forall i, j :: 0 <= i < j < |us| ==> us[i] != us[j]
    ensures forall u :: u in us <==> u in UserSet(entries)
  {
    if entries == [] then []
    else
      var prefix := entries[..|entries| - 1];
      var u := entries[|entries| - 1].username;
      assert entries == prefix + [entries[|entries| - 1]];
      assert UserSet(entries) == UserSet(prefix) + {u};
      var us := Usernames(prefix);
      if u in us then us else us + [u]
  }

  /** One row per group: each username with its entry count. */
  function Tally(entries: seq<EntryRow>): (rows: seq<LeaderRow>)
    ensures forall r :: r in rows ==> r.username in UserSet(entries) && r.entryCount == CountFor(entries, r.username)
    ensures forall u :: u in UserSet(entries) ==> LeaderRow(u, CountFor(entries, u)) in rows
    ensures forall r :: multiset(rows)[r] <= 1
  {
    var us := Usernames(entries);
    var rows := seq(|us|, i requires 0 <= i < |us| => LeaderRow(us[i], CountFor(entries, us[i])));
    assert forall u :: u in us ==> LeaderRow(u, CountFor(entries, u)) in rows by {
      forall u | u in us ensures LeaderRow(u, CountFor(entries, u)) in rows {
        var i :| 0 <= i < |us| && us[i] == u;
        assert rows[i] == LeaderRow(u, CountFor(entries, u));
      }
    }
    DistinctMultiplicity(rows);
    rows
  }

  /** A sequence without repeated elements holds each value at most once. */
  lemma {:induction false} DistinctMultiplicity<T>(s: seq<T>)
    requires forall i, j :: 0 <= i < j < |s| ==> s[i] != s[j]
    ensures forall x :: multiset(s)[x] <= 1
  {
    if s != [] {
      DistinctMultiplicity(s[1..]);
      assert s == [s[0]] + s[1..];
      assert s[0] !in s[1..];
    }
  }

  /** A sequence that holds each value at most once has no repeated elements. */
  lemma {:induction false} MultiplicityDistinct<T>(s: seq<T>)
    requires forall x :: multiset(s)[x] <= 1
    ensures forall i, j :: 0 <= i < j < |s| ==> s[i] != s[j]
  {
    if s != [] {
      assert s == [s[0]] + s[1..];
      assert forall x :: multiset(s)[x] == multiset{s[0]}[x] + multiset(s[1..])[x];
      MultiplicityDistinct(s[1..]);
      assert multiset(s[1..])[s[0]] == 0;
      assert forall j :: 1 <= j < |s| ==> s[j] in s[1..];
    }
  }

  /** No row of `rows` counts more than `c`. */
  predicate AtMost(rows: seq<LeaderRow>, c: nat) {
    forall k :: 0 <= k < |rows| ==> rows[k].entryCount <= c
  }

  /** A row counting at least every row of a sorted sequence can go in front of it. */
  lemma ConsSorted(x: LeaderRow, rows: seq<LeaderRow>)
    requires SortedByCount(rows) && AtMost(rows, x.entryCount)
    ensures SortedByCount([x] + rows)
  {
    var out := [x] + rows;
    assert forall k :: 0 < k < |out| ==> out[k] == rows[k - 1];
  }

  /** Rows holding the rows of `b` plus `r` stay under a bound that `b` and `r` stay under. */
  lemma AtMostMultiset(a: seq<LeaderRow>, b: seq<LeaderRow>, r: LeaderRow, c: nat)
    requires multiset(a) == multiset(b) + multiset{r}
    requires AtMost(b, c) && r.entryCount <= c
    ensures AtMost(a, c)
  {
    forall k | 0 <= k < |a|
      ensures a[k].entryCount <= c
    {
      assert a[k] in multiset(a);
      if a[k] != r {
        assert a[k] in multiset(b);
        var m :| 0 <= m < |b| && b[m] == a[k];
      }
    }
  }

  /** Inserts `r` into rows sorted by decreasing count. */
  function InsertByCount(r: LeaderRow, rows: seq<LeaderRow>): (out: seq<LeaderRow>)
    requires SortedByCount(rows)
    ensures SortedByCount(out)
    ensures multiset(out) == multiset(rows) + multiset{r}
    ensures |out| == |rows| + 1
  {
    if rows == [] || r.entryCount >= rows[0].entryCount then
      ConsSorted(r, rows);
      assert multiset([r] + rows) == multiset{r} + multiset(rows);
      [r] + rows
    else
      SortedTail(rows);
      var rest := InsertByCount(r, rows[1..]);
      InsertBehind(r, rows, rest);
      [rows[0]] + rest
  }

  /** The rows after the first of a sorted sequence are sorted and count at most the first. */
  lemma SortedTail(rows: seq<LeaderRow>)
    requires SortedByCount(rows) && rows != []
    ensures SortedByCount(rows[1..]) && AtMost(rows[1..], rows[0].entryCount)
  {
  }

  /** Putting the first row back in front of the tail with `r` inserted. */
  lemma InsertBehind(r: LeaderRow, rows: seq<LeaderRow>, rest: seq<LeaderRow>)
    requires SortedByCount(rows) && rows != [] && r.entryCount < rows[0].entryCount
    requires SortedByCount(rest) && multiset(rest) == multiset(rows[1..]) + multiset{r}
    ensures SortedByCount([rows[0]] + rest)
    ensures multiset([rows[0]] + rest) == multiset(rows) + multiset{r}
  {
    assert rows == [rows[0]] + rows[1..];
    SortedTail(rows);
    AtMostMultiset(rest, rows[1..], r, rows[0].entryCount);
    ConsSorted(rows[0], rest);
  }

  /** Sorts rows by decreasing count (insertion sort). */
  function SortByCount(rows: seq<LeaderRow>): (out: seq<LeaderRow>)
    ensures SortedByCount(out)
    ensures multiset(out) == multiset(rows)
    ensures |out| == |rows|
  {
    if rows == [] then []
    else
      assert rows == [rows[0]] + rows[1..];
      InsertByCount(rows[0], SortByCount(rows[1..]))
  }

  /** The leaderboard query: the groups sorted by decreasing count, cut to the first five.
      The rows are sorted, and when fewer than five are shown they are all the groups. */
  function Leaderboard(entries: seq<EntryRow>): (board: seq<LeaderRow>)
    ensures |board| <= LeaderboardSize
    ensures SortedByCount(board)
    ensures forall r :: r in board ==> r in multiset(Tally(entries))
    ensures |board| < LeaderboardSize ==> multiset(board) == multiset(Tally(entries))
  {
    var sorted := SortByCount(Tally(entries));
    if |sorted| <= LeaderboardSize then sorted else sorted[..LeaderboardSize]
  }

  /** Each sorted group row is a user with its true count. */
  lemma SortedTallyRows(entries: seq<EntryRow>)
    ensures forall k :: 0 <= k < |SortByCount(Tally(entries))| ==>
      && SortByCount(Tally(entries))[k].username in UserSet(entries)
      && SortByCount(Tally(entries))[k].entryCount == CountFor(entries, SortByCount(Tally(entries))[k].username)
  {
    var tally := Tally(entries);
    var sorted := SortByCount(tally);
    forall k | 0 <= k < |sorted|
      ensures sorted[k] in tally
    {
      assert sorted[k] in multiset(sorted);
    }
  }

  /** No user has two sorted group rows. */
  lemma SortedTallyDistinct(entries: seq<EntryRow>)
    ensures forall i, j :: 0 <= i < j < |SortByCount(Tally(entries))| ==>
      SortByCount(Tally(entries))[i].username != SortByCount(Tally(entries))[j].username
  {
    var sorted := SortByCount(Tally(entries));
    SortedTallyRows(entries);
    MultiplicityDistinct(sorted);
  }

  /** Every user that owns a row has a sorted group row, at index `k`. */
  lemma SortedTallyComplete(entries: seq<EntryRow>, u: Option<string>) returns (k: nat)
    requires u in UserSet(entries)
    ensures k < |SortByCount(Tally(entries))| && SortByCount(Tally(entries))[k].username == u
  {
    var tally := Tally(entries);
    var sorted := SortByCount(tally);
    var row := LeaderRow(u, CountFor(entries, u));
    assert row in tally;
    assert row in multiset(tally);
    assert row in multiset(sorted);
    k :| 0 <= k < |sorted| && sorted[k] == row;
  }

  /** The leaderboard is the first rows of the sorted groups: all of them when there are at
      most five. */
  lemma LeaderboardPrefix(entries: seq<EntryRow>)
    ensures |Leaderboard(entries)| <= LeaderboardSize && |Leaderboard(entries)| <= |SortByCount(Tally(entries))|
    ensures |Leaderboard(entries)| < LeaderboardSize ==> |Leaderboard(entries)| == |SortByCount(Tally(entries))|
    ensures forall i :: 0 <= i < |Leaderboard(entries)| ==> Leaderboard(entries)[i] == SortByCount(Tally(entries))[i]
  {
    var sorted := SortByCount(Tally(entries));
    if |sorted| <= LeaderboardSize {
      assert Leaderboard(entries) == sorted;
    } else {
      assert Leaderboard(entries) == sorted[..LeaderboardSize];
    }
  }

  /** Each leaderboard row is a user with its true count. */
  lemma LeaderboardRows(entries: seq<EntryRow>)
    ensures forall i :: 0 <= i < |Leaderboard(entries)| ==>
      && Leaderboard(entries)[i].username in UserSet(entries)
      && Leaderboard(entries)[i].entryCount == CountFor(entries, Leaderboard(entries)[i].username)
  {
    LeaderboardPrefix(entries);
    SortedTallyRows(entries);
  }

  /** No user appears twice, and counts do not increase down the leaderboard. */
  lemma LeaderboardDistinctSorted(entries: seq<EntryRow>)
    ensures forall i, j :: 0 <= i < j < |Leaderboard(entries)| ==>
      Leaderboard(entries)[i].username != Leaderboard(entries)[j].username
    ensures SortedByCount(Leaderboard(entries))
  {
    LeaderboardPrefix(entries);
    SortedTallyDistinct(entries);
  }

  /** A user missing from the leaderboard means it is full of users counting at least as much. */
  lemma LeaderboardComplete(entries: seq<EntryRow>, u: Option<string>)
    requires u in UserSet(entries)
    requires forall i :: 0 <= i < |Leaderboard(entries)| ==> Leaderboard(entries)[i].username != u
    ensures |Leaderboard(entries)| == LeaderboardSize
    ensures forall i :: 0 <= i < |Leaderboard(entries)| ==> CountFor(entries, u) <= Leaderboard(entries)[i].entryCount
  {
    var sorted := SortByCount(Tally(entries));
    LeaderboardPrefix(entries);
    SortedTallyRows(entries);
    var k := SortedTallyComplete(entries, u);
    assert k >= |Leaderboard(entries)|;
    assert sorted[k].entryCount == CountFor(entries, u);
  }

  /** The computed leaderboard is one of the results the query may return. */
  lemma LeaderboardCorrect(entries: seq<EntryRow>)
    ensures IsLeaderboard(entries, Leaderboard(entries))
  {
    LeaderboardPrefix(entries);
    LeaderboardRows(entries);
    LeaderboardDistinctSorted(entries);
    forall u | u in UserSet(entries) && (forall i :: 0 <= i < |Leaderboard(entries)| ==> Leaderboard(entries)[i].username != u)
      ensures |Leaderboard(entries)| == LeaderboardSize
      ensures forall i :: 0 <= i < |Leaderboard(entries)| ==> CountFor(entries, u) <= Leaderboard(entries)[i].entryCount
    {
      LeaderboardComplete(entries, u);
    }
  }

  /** The count the leaderboard shows for a user is the number of rows the filtered
      entries listing returns for that user (a NULL or empty username lists every row instead). */
  lemma LeaderboardCountsMatchListing(entries: seq<EntryRow>, i: nat)
    requires i < |Leaderboard(entries)|
    requires !Falsy(Leaderboard(entries)[i].username)
    ensures Leaderboard(entries)[i].entryCount == |EntriesQuery(entries, Leaderboard(entries)[i].username)|
  {
    LeaderboardCorrect(entries);
  }
}
