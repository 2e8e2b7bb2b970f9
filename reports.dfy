/** Row selection of the weekly export (src/App.js:1300-1328): a header row,
    then one row per entry of each selected user, users in directory order
    and entries in stored order, for every entry with a truthy duration and
    a `raw` instant inside the half-open week `[weekStart, weekStart + 7 days)`. */
module Reports {
  import opened Wrappers
  import opened Text
  import opened TimeText
  import opened Records
  import opened Durations
  import opened Csv
  import opened Sessions

  const Header: seq<string> := ["User", "Date", "Clock In", "Clock Out", "Duration (min)"]

  /** `csvUserFilter`: `"all"` keeps every user, any other value one id. */
  predicate Selected(filter: string, u: User) {
    filter == "all" || filter == u.id
  }

  /** The per-entry test of the export: a truthy duration, a `raw` instant,
      and that instant in `[weekStart, weekStart + WeekMs)`. */
  function InExportWeek(weekStart: int): Entry -> bool {
    (e: Entry) => HasDuration(e) && e.raw.Some? && weekStart <= e.raw.value < weekStart + WeekMs
  }

  /** The five cells pushed for a selected entry: name, locale date of
      `raw`, formatted `raw`, formatted `raw` plus the duration, duration. */
  function EntryRow(name: string, e: Entry, loc: Locale): (row: seq<string>)
    requires e.raw.Some? && e.duration.Some?
    ensures |row| == |Header| && row[0] == name
    ensures row[1] == loc.date(e.raw.value) && row[2] == loc.dateTime(e.raw.value)
    ensures row[3] == loc.dateTime(e.raw.value + e.duration.value * MsPerMinute)
  {
    var start := e.raw.value;
    var d := e.duration.value;
    [name, loc.date(start), loc.dateTime(start), loc.dateTime(start + d * MsPerMinute), IntToString(d)]
  }

  /** The rows one user's entry loop pushes. */
  function EntryRows(name: string, entries: seq<Entry>, weekStart: int, loc: Locale): (rows: seq<seq<string>>)
    ensures forall k :: 0 <= k < |rows| ==> |rows[k]| == |Header| && rows[k][0] == name
  {
    if |entries| == 0 then []
    else
      var init := EntryRows(name, entries[..|entries| - 1], weekStart, loc);
      var e := entries[|entries| - 1];
      if InExportWeek(weekStart)(e) then init + [EntryRow(name, e, loc)] else init
  }

  /** The rows the user loop pushes after the header. */
  function UserRows(users: seq<User>, filter: string, weekStart: int, loc: Locale): (rows: seq<seq<string>>)
    ensures forall k :: 0 <= k < |rows| ==> |rows[k]| == |Header|
  {
    if |users| == 0 then []
    else
      var init := UserRows(users[..|users| - 1], filter, weekStart, loc);
      var u := users[|users| - 1];
      if Selected(filter, u) then init + EntryRows(u.name, u.entries, weekStart, loc) else init
  }

  /** One more entry of the entry loop. */
  lemma EntryRowsStep(name: string, entries: seq<Entry>, j: nat, weekStart: int, loc: Locale)
    requires j < |entries|
    ensures EntryRows(name, entries[..j + 1], weekStart, loc)
              == EntryRows(name, entries[..j], weekStart, loc)
                 + (if InExportWeek(weekStart)(entries[j]) then [EntryRow(name, entries[j], loc)] else [])
  {
    assert entries[..j + 1][..j] == entries[..j];
  }

  /** One more user of the user loop. */
  lemma UserRowsStep(users: seq<User>, i: nat, filter: string, weekStart: int, loc: Locale)
    requires i < |users|
    ensures UserRows(users[..i + 1], filter, weekStart, loc)
              == UserRows(users[..i], filter, weekStart, loc)
                 + (if Selected(filter, users[i]) then EntryRows(users[i].name, users[i].entries, weekStart, loc) else [])
  {
    assert users[..i + 1][..i] == users[..i];
  }

  /** The duration cell reads back, with `parseInt`, as the entry's minutes. */
  lemma EntryRowDurationReadsBack(name: string, e: Entry, loc: Locale)
    requires e.raw.Some? && e.duration.Some?
    ensures ParseInt(EntryRow(name, e, loc)[4]) == Some(e.duration.value)
  {
    ParseIntOfIntToString(e.duration.value);
  }

  /** Every row of the export, header first. */
  function WeeklyRows(users: seq<User>, filter: string, weekStart: int, loc: Locale): (rows: seq<seq<string>>)
    ensures |rows| >= 1 && rows[0] == Header
    ensures forall k :: 0 <= k < |rows| ==> |rows[k]| == |Header|
  {
    [Header] + UserRows(users, filter, weekStart, loc)
  }

  /** `csvContent`. */
  function WeeklyCsv(users: seq<User>, filter: string, weekStart: int, loc: Locale): string {
    EncodeCsv(WeeklyRows(users, filter, weekStart, loc))
  }

  /** The export decodes back into exactly its rows: a header and five cells per row. */
  lemma WeeklyCsvDecodes(users: seq<User>, filter: string, weekStart: int, loc: Locale)
    ensures DecodeCsv(WeeklyCsv(users, filter, weekStart, loc)) == Some(WeeklyRows(users, filter, weekStart, loc))
  {
    DecodeEncode(WeeklyRows(users, filter, weekStart, loc));
  }

  /** A user's rows are the selected entries, one row each and in stored
      order: the reference reading of the entry loop is a filter then a map. */
  lemma {:induction false} EntryRowsAreSelectedEntries(name: string, entries: seq<Entry>, weekStart: int, loc: Locale)
    ensures |EntryRows(name, entries, weekStart, loc)| == |Filter(entries, InExportWeek(weekStart))|
    ensures forall k :: 0 <= k < |EntryRows(name, entries, weekStart, loc)| ==>
              var e := Filter(entries, InExportWeek(weekStart))[k];
              e.raw.Some? && e.duration.Some? && EntryRows(name, entries, weekStart, loc)[k] == EntryRow(name, e, loc)
  {
    if |entries| > 0 {
      EntryRowsAreSelectedEntries(name, entries[..|entries| - 1], weekStart, loc);
    }
  }

  /** An entry clocked out within 30 seconds (duration zero) gets no row. */
  lemma ZeroDurationHasNoRow(name: string, entries: seq<Entry>, e: Entry, weekStart: int, loc: Locale)
    requires e.duration == Some(0) || e.duration.None?
    ensures EntryRows(name, entries + [e], weekStart, loc) == EntryRows(name, entries, weekStart, loc)
  {
    assert (entries + [e])[..|entries|] == entries;
  }

  /** The week window is half open: an entry starting exactly at `weekStart`
      gets a row, one starting exactly seven days later does not. */
  lemma WindowBoundaries(name: string, entries: seq<Entry>, e: Entry, weekStart: int, loc: Locale)
    requires HasDuration(e) && e.raw.Some?
    ensures e.raw.value == weekStart ==>
              EntryRows(name, entries + [e], weekStart, loc) == EntryRows(name, entries, weekStart, loc) + [EntryRow(name, e, loc)]
    ensures e.raw.value == weekStart + WeekMs ==>
              EntryRows(name, entries + [e], weekStart, loc) == EntryRows(name, entries, weekStart, loc)
  {
    assert (entries + [e])[..|entries|] == entries;
  }

  /** The weekly total and the export disagree on entries starting after the
      week: such an entry adds its minutes to the weekly total yet gets no row. */
  lemma AfterWeekCountedButNotExported(u: User, e: Entry, weekStart: int, loc: Locale)
    requires HasDuration(e) && e.raw.Some? && e.raw.value >= weekStart + WeekMs
    ensures WeeklyMinutesForUser(u.(entries := u.entries + [e]), weekStart) == WeeklyMinutesForUser(u, weekStart) + e.duration.value
    ensures EntryRows(u.name, u.entries + [e], weekStart, loc) == EntryRows(u.name, u.entries, weekStart, loc)
  {
    WeeklyMinutesNoUpperBound(u, weekStart, e);
    assert (u.entries + [e])[..|u.entries|] == u.entries;
  }

  /** When no entry starts at or after the end of the week, the export's
      entries carry exactly the weekly total. */
  lemma {:induction false} ExportMatchesWeeklyTotal(entries: seq<Entry>, weekStart: int)
    requires forall k :: 0 <= k < |entries| ==> entries[k].raw.Some? ==> entries[k].raw.value < weekStart + WeekMs
    ensures Filter(entries, InExportWeek(weekStart)) == Filter(entries, CountsForWeek(weekStart))
  {
    if |entries| > 0 {
      ExportMatchesWeeklyTotal(entries[..|entries| - 1], weekStart);
    }
  }

  /** A filter naming one id exports that user's rows alone, and `"all"`
      exports everybody's. */
  lemma {:induction false} FilterSelectsUsers(users: seq<User>, weekStart: int, loc: Locale, id: string)
    requires id != "all"
    ensures UserRows(users, id, weekStart, loc) == UserRows(MatchingUsers(users, id), "all", weekStart, loc)
  {
    if |users| > 0 {
      var init := users[..|users| - 1];
      FilterSelectsUsers(init, weekStart, loc, id);
      var u := users[|users| - 1];
      if u.id == id {
        var m := MatchingUsers(init, id) + [u];
        assert m[..|m| - 1] == MatchingUsers(init, id);
      }
    }
  }

  /** The users with this id, in order. */
  function MatchingUsers(users: seq<User>, id: string): (r: seq<User>)
    ensures |r| <= |users|
    ensures forall k :: 0 <= k < |r| ==> r[k].id == id && r[k] in users
    ensures forall k :: 0 <= k < |users| && users[k].id == id ==> users[k] in r
  {
    if |users| == 0 then []
    else
      var init := MatchingUsers(users[..|users| - 1], id);
      if users[|users| - 1].id == id then init + [users[|users| - 1]] else init
  }

  /** Selecting from a concatenation selects from each part and keeps them
      in order, so the selected users stay in directory order. */
  lemma {:induction false} MatchingUsersAppend(a: seq<User>, b: seq<User>, id: string)
    ensures MatchingUsers(a + b, id) == MatchingUsers(a, id) + MatchingUsers(b, id)
  {
    if |b| > 0 {
      assert (a + b)[..|a + b| - 1] == a + b[..|b| - 1];
      MatchingUsersAppend(a, b[..|b| - 1], id);
    } else {
      assert a + b == a;
    }
  }

  /** A user who is not selected adds no row. */
  lemma UnselectedUserAddsNothing(users: seq<User>, u: User, filter: string, weekStart: int, loc: Locale)
    requires !Selected(filter, u)
    ensures UserRows(users + [u], filter, weekStart, loc) == UserRows(users, filter, weekStart, loc)
  {
    assert (users + [u])[..|users|] == users;
  }

  /** The export row of the entry a live session closes with (the last
      entry `Sessions.ClockInThenOut` shows after clocking in at `t0` and out
      at `t1`): its `raw` is the clock-out instant `t1`, so "Clock In" shows
      `t1` rather than `t0`, "Clock Out" shows `t1` plus the session's
      minutes, and the export week is decided by `t1`. */
  lemma LiveSessionRowUsesClockOut(name: string, t0: int, t1: int, loc: Locale, weekStart: int)
    ensures var m := RoundMinutes(t1 - t0);
            var e := ClockOutEntry(t1, m, loc);
            e.raw == Some(t1) && e.duration == Some(m)
            && EntryRow(name, e, loc)[2] == loc.dateTime(t1)
            && EntryRow(name, e, loc)[3] == loc.dateTime(t1 + m * MsPerMinute)
            && (InExportWeek(weekStart)(e) <==> m != 0 && weekStart <= t1 < weekStart + WeekMs)
  {
  }
}
