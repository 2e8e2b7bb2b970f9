/** The `App` component's state and handlers (src/App.js:351-374, 418-436,
    506-665, 1185-1332): the directory `users` plus the sign-in state, each
    handler a method that replaces the directory as the source's
    `setUsers` call does.  The clock, the locale, the prompt and confirm
    answers and the form fields are parameters. */
module App {
  import opened Wrappers
  import opened TimeText
  import opened Records
  import opened Sessions
  import opened Punches
  import opened Directory
  import opened Reports
  import opened Csv

  /** `[...entries]` then `newEntries[index] = {...newEntries[index], ...}`
      on the copy, for a position inside the list. */
  method ReplacedCopy(entries: seq<Entry>, index: int, edit: Edit, loc: Locale) returns (r: seq<Entry>)
    ensures r == ReplaceAt(entries, index, edit, loc)
  {
    var copy := new Entry[|entries|](i requires 0 <= i < |entries| => entries[i]);
    if 0 <= index < copy.Length {
      copy[index] := copy[index].(raw := Some(edit.start), time := loc.time(edit.start), duration := Some(edit.minutes));
    }
    r := copy[..];
  }

  /** `[...entries]` then `splice(start, 1)` on the copy: the entries after
      the removed one move down one place. */
  method SplicedCopy(entries: seq<Entry>, start: int) returns (r: seq<Entry>)
    ensures r == Splice1(entries, start)
  {
    var k := SpliceStart(|entries|, start);
    if k == |entries| {
      return entries;
    }
    var copy := new Entry[|entries| - 1];
    var i := 0;
    while i < copy.Length
      invariant 0 <= i <= copy.Length
      invariant forall j :: 0 <= j < i && j < k ==> copy[j] == entries[j]
      invariant forall j :: k <= j < i ==> copy[j] == entries[j + 1]
    {
      copy[i] := if i < k then entries[i] else entries[i + 1];
      i := i + 1;
    }
    r := copy[..];
    assert r == entries[..k] + entries[k + 1..];
  }

  /** `prev.map(u => u.id === userId ? {...u, entries: newEntries} : u)` with
      the edited copy of each matching record's entries. */
  method EditInEach(users: seq<User>, userId: string, index: int, edit: Edit, loc: Locale) returns (r: seq<User>)
    ensures r == UpdateWhere(users, userId, ApplyEdit(index, edit, loc))
  {
    r := [];
    var i := 0;
    while i < |users|
      invariant 0 <= i <= |users| && |r| == i
      invariant forall k :: 0 <= k < i ==> r[k] == if users[k].id == userId then ApplyEdit(index, edit, loc)(users[k]) else users[k]
    {
      var u := users[i];
      if u.id == userId {
        var entries := ReplacedCopy(u.entries, index, edit, loc);
        u := u.(entries := entries);
      }
      r := r + [u];
      i := i + 1;
    }
  }

  /** The same map with each matching record's entries copied and spliced. */
  method SpliceInEach(users: seq<User>, userId: string, index: int) returns (r: seq<User>)
    ensures r == UpdateWhere(users, userId, RemoveAt(index))
  {
    r := [];
    var i := 0;
    while i < |users|
      invariant 0 <= i <= |users| && |r| == i
      invariant forall k :: 0 <= k < i ==> r[k] == if users[k].id == userId then RemoveAt(index)(users[k]) else users[k]
    {
      var u := users[i];
      if u.id == userId {
        var entries := SplicedCopy(u.entries, index);
        u := u.(entries := entries);
      }
      r := r + [u];
      i := i + 1;
    }
  }

  /** `saveEditPunch` as the source runs it: the checks, then a fresh copy
      of each matching record's entries with the edited position rewritten. */
  method EditPunchCopying(users: seq<User>, editing: Option<PunchRef>, inText: string, outText: string,
                          durationText: string, toInstant: DateTime -> int, loc: Locale)
    returns (next: Result<seq<User>, PunchError>)
    ensures next == SaveEditPunch(users, editing, inText, outText, durationText, toInstant, loc)
  {
    if editing.None? {
      return Err(PunchError.NotEditing);
    }
    var p := editing.value;
    if FindUser(users, p.userId).None? {
      return Err(NoSuchUser);
    }
    var read := ReadEdit(inText, outText, durationText, toInstant);
    if read.Err? {
      return Err(read.error);
    }
    var edited := EditInEach(users, p.userId, p.entryIndex, read.value, loc);
    next := Ok(edited);
  }

  /** The inner loop of `generateWeeklyCSV`: push one row for each of the
      user's entries that has a truthy duration and starts inside the week. */
  method PushEntryRows(before: seq<seq<string>>, name: string, entries: seq<Entry>, weekStart: int, loc: Locale)
    returns (rows: seq<seq<string>>)
    ensures rows == before + EntryRows(name, entries, weekStart, loc)
  {
    rows := before;
    var j := 0;
    while j < |entries|
      invariant 0 <= j <= |entries|
      invariant rows == before + EntryRows(name, entries[..j], weekStart, loc)
    {
      var e := entries[j];
      EntryRowsStep(name, entries, j, weekStart, loc);
      if HasDuration(e) && e.raw.Some? && weekStart <= e.raw.value < weekStart + WeekMs {
        rows := rows + [EntryRow(name, e, loc)];
      }
      j := j + 1;
    }
    assert entries[..|entries|] == entries;
  }

  /** The rows of `generateWeeklyCSV`: the header, then the user loop, which
      runs the entry loop for every selected user. */
  method CollectWeeklyRows(users: seq<User>, filter: string, weekStart: int, loc: Locale)
    returns (rows: seq<seq<string>>)
    ensures rows == WeeklyRows(users, filter, weekStart, loc)
  {
    rows := [Header];
    var i := 0;
    while i < |users|
      invariant 0 <= i <= |users|
      invariant rows == [Header] + UserRows(users[..i], filter, weekStart, loc)
    {
      var u := users[i];
      UserRowsStep(users, i, filter, weekStart, loc);
      if Selected(filter, u) {
        rows := PushEntryRows(rows, u.name, u.entries, weekStart, loc);
      }
      i := i + 1;
    }
    assert users[..|users|] == users;
  }

  class Timeclock {
    /** `users`: the directory, in stored order. */
    var users: seq<User>
    /** `currentUserId`, "" while nobody is signed in. */
    var currentUserId: string
    var isAdmin: bool
    var isAuthenticated: bool

    /** The initial state: no users and nobody signed in. */
    constructor()
      ensures users == [] && currentUserId == "" && !isAdmin && !isAuthenticated
    {
      users := [];
      currentUserId := "";
      isAdmin := false;
      isAuthenticated := false;
    }

    /** The startup load: a fetched array replaces the directory, a failed
        load keeps it; either way the admin account is ensured. */
    method Load(fetched: Option<seq<User>>)
      modifies this
      ensures users == EnsureAdmin(if fetched.Some? then fetched.value else old(users))
      ensures HasAdmin(users)
      ensures currentUserId == old(currentUserId) && isAdmin == old(isAdmin) && isAuthenticated == old(isAuthenticated)
    {
      users := EnsureAdmin(if fetched.Some? then fetched.value else users);
    }

    /** `handleLogin`: a granted sign-in sets the signed-in user and the admin
        flag; a refused one changes nothing. */
    method SignIn(selectedUserId: string, passcode: string) returns (r: LoginResult)
      modifies this
      ensures r == Login(old(users), selectedUserId, passcode)
      ensures users == old(users)
      ensures r.AdminSession? ==> isAdmin && isAuthenticated && currentUserId == r.currentUserId
      ensures r.UserSession? ==> !isAdmin && isAuthenticated && currentUserId == r.currentUserId
      ensures (r.UserNotFound? || r.IncorrectPasscode?) ==>
                currentUserId == old(currentUserId) && isAdmin == old(isAdmin) && isAuthenticated == old(isAuthenticated)
    {
      r := Login(users, selectedUserId, passcode);
      match r
      case AdminSession(id) =>
        isAdmin, isAuthenticated, currentUserId := true, true, id;
      case UserSession(id) =>
        isAdmin, isAuthenticated, currentUserId := false, true, id;
      case _ =>
    }

    /** `handleLogout`. */
    method SignOut()
      modifies this
      ensures users == old(users) && currentUserId == "" && !isAdmin && !isAuthenticated
    {
      isAuthenticated, isAdmin, currentUserId := false, false, "";
    }

    method AddUser(name: string, passcode: string, stamp: nat) returns (r: Result<(), DirectoryError>)
      modifies this
      ensures var next := Directory.AddUser(old(users), name, passcode, stamp);
              users == (if next.Ok? then next.value else old(users)) && r == Done(next)
      ensures currentUserId == old(currentUserId) && isAdmin == old(isAdmin) && isAuthenticated == old(isAuthenticated)
    {
      var next := Directory.AddUser(users, name, passcode, stamp);
      users := if next.Ok? then next.value else users;
      r := Done(next);
    }

    method SaveEditUser(editing: Option<User>, name: string, passcode: string) returns (r: Result<(), DirectoryError>)
      modifies this
      ensures var next := Directory.SaveEditUser(old(users), editing, name, passcode);
              users == (if next.Ok? then next.value else old(users)) && r == Done(next)
      ensures currentUserId == old(currentUserId) && isAdmin == old(isAdmin) && isAuthenticated == old(isAuthenticated)
    {
      var next := Directory.SaveEditUser(users, editing, name, passcode);
      users := if next.Ok? then next.value else users;
      r := Done(next);
    }

    method DeleteUser(userId: string, confirmed: bool)
      modifies this
      ensures users == Directory.DeleteUser(old(users), userId, confirmed)
      ensures currentUserId == old(currentUserId) && isAdmin == old(isAdmin) && isAuthenticated == old(isAuthenticated)
    {
      users := Directory.DeleteUser(users, userId, confirmed);
    }

    method ResetData(confirmed: bool)
      modifies this
      ensures users == Directory.ResetData(old(users), confirmed)
      ensures currentUserId == old(currentUserId) && isAdmin == old(isAdmin) && isAuthenticated == old(isAuthenticated)
    {
      users := Directory.ResetData(users, confirmed);
    }

    /** `handleClockIn` for the signed-in user. */
    method ClockIn(now: int, loc: Locale)
      modifies this
      ensures users == Sessions.ClockIn(old(users), currentUserId, now, loc)
      ensures currentUserId == old(currentUserId) && isAdmin == old(isAdmin) && isAuthenticated == old(isAuthenticated)
    {
      users := Sessions.ClockIn(users, currentUserId, now, loc);
    }

    /** `handleClockOut(userIdOverride)`; "" for no override. */
    method ClockOut(userIdOverride: string, now: int, loc: Locale)
      modifies this
      ensures users == Sessions.ClockOut(old(users), userIdOverride, currentUserId, now, loc)
      ensures currentUserId == old(currentUserId) && isAdmin == old(isAdmin) && isAuthenticated == old(isAuthenticated)
    {
      users := Sessions.ClockOut(users, userIdOverride, currentUserId, now, loc);
    }

    /** `saveEditPunch`: on valid fields each record with the user's id gets
        its entry list copied and the edited position rewritten. */
    method SaveEditPunch(editing: Option<PunchRef>, inText: string, outText: string, durationText: string,
                         toInstant: DateTime -> int, loc: Locale) returns (r: Result<(), PunchError>)
      modifies this
      ensures var next := Punches.SaveEditPunch(old(users), editing, inText, outText, durationText, toInstant, loc);
              users == (if next.Ok? then next.value else old(users)) && r == Done(next)
      ensures currentUserId == old(currentUserId) && isAdmin == old(isAdmin) && isAuthenticated == old(isAuthenticated)
    {
      var next := EditPunchCopying(users, editing, inText, outText, durationText, toInstant, loc);
      users := if next.Ok? then next.value else users;
      r := Done(next);
    }

    /** `deletePunch`: once confirmed, each record with the id gets its entry
        list copied and spliced at the position. */
    method DeletePunch(userId: string, entryIndex: int, confirmed: bool)
      modifies this
      ensures users == Punches.DeletePunch(old(users), userId, entryIndex, confirmed)
      ensures currentUserId == old(currentUserId) && isAdmin == old(isAdmin) && isAuthenticated == old(isAuthenticated)
    {
      if confirmed {
        users := SpliceInEach(users, userId, entryIndex);
      }
    }

    /** `addPunchForUser` with the two prompt answers (None when dismissed). */
    method AddPunch(userId: string, inAnswer: Option<string>, outAnswer: Option<string>,
                    toInstant: DateTime -> int, loc: Locale) returns (r: Result<(), PunchError>)
      modifies this
      ensures var next := Punches.AddPunch(old(users), userId, inAnswer, outAnswer, toInstant, loc);
              users == (if next.Ok? then next.value else old(users)) && r == Done(next)
      ensures currentUserId == old(currentUserId) && isAdmin == old(isAdmin) && isAuthenticated == old(isAuthenticated)
    {
      var next := Punches.AddPunch(users, userId, inAnswer, outAnswer, toInstant, loc);
      users := if next.Ok? then next.value else users;
      r := Done(next);
    }

    /** `generateWeeklyCsv`: the header, then the nested user and entry loops
        pushing one row per selected entry, then the quoting and joining.
        The text is the export the row specification describes, and it
        decodes back into exactly those rows. */
    method GenerateWeeklyCsv(filter: string, weekStart: int, loc: Locale) returns (csv: string)
      ensures csv == WeeklyCsv(users, filter, weekStart, loc)
      ensures DecodeCsv(csv) == Some(WeeklyRows(users, filter, weekStart, loc))
    {
      var rows := CollectWeeklyRows(users, filter, weekStart, loc);
      csv := EncodeCsv(rows);
      WeeklyCsvDecodes(users, filter, weekStart, loc);
    }
  }

  /** What a handler reports back: success, or the reason nothing changed. */
  function Done<T, E>(outcome: Result<T, E>): (r: Result<(), E>)
    ensures r.Ok? <==> outcome.Ok?
    ensures outcome.Err? ==> r.error == outcome.error
  {
    if outcome.Ok? then Ok(()) else Err(outcome.error)
  }
}
