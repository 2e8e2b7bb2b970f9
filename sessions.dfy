/** The clock-in / clock-out state machine (src/App.js:595-639).  A user is
    idle while `session` is absent and clocked in while it holds the start
    instant; each transition appends one entry to every record with the
    user's id.  An empty id stands for the source's falsy id (null or ""). */
module Sessions {
  import opened Wrappers
  import opened TimeText
  import opened Records
  import opened Durations

  /** The clock-in marker: locale time text and instant of `now`, no duration. */
  function ClockInEntry(now: int, loc: Locale): Entry {
    Entry(ClockInMark, loc.time(now), Some(now), None)
  }

  /** The clock-out entry, carrying the rounded session length in minutes. */
  function ClockOutEntry(now: int, minutes: int, loc: Locale): Entry {
    Entry(ClockOutMark, loc.time(now), Some(now), Some(minutes))
  }

  function StartSession(now: int, loc: Locale): User -> User {
    (u: User) => u.(session := Some(now), entries := u.entries + [ClockInEntry(now, loc)])
  }

  function EndSession(now: int, minutes: int, loc: Locale): User -> User {
    (u: User) => u.(session := None, entries := u.entries + [ClockOutEntry(now, minutes, loc)])
  }

  /** Whether `handleClockIn` acts: a non-empty id naming a user who is idle. */
  predicate CanClockIn(users: seq<User>, id: string) {
    id != "" && FindUser(users, id).Some? && FindUser(users, id).value.session.None?
  }

  /** Whether `handleClockOut` acts: a non-empty id naming a user who is clocked in. */
  predicate CanClockOut(users: seq<User>, id: string) {
    id != "" && FindUser(users, id).Some? && FindUser(users, id).value.session.Some?
  }

  /** `handleClockIn`: unchanged unless the user can clock in; then every
      record with that id opens a session at `now` and gains a clock-in
      marker, and every other record is kept. */
  function ClockIn(users: seq<User>, id: string, now: int, loc: Locale): (r: seq<User>)
    ensures !CanClockIn(users, id) ==> r == users
    ensures |r| == |users|
  {
    if !CanClockIn(users, id) then users
    else UpdateWhere(users, id, StartSession(now, loc))
  }

  /** The user the clock-out acts on: the override when given, else the signed-in user. */
  function ClockOutTarget(userIdOverride: string, currentUserId: string): (r: string)
    ensures r == "" <==> userIdOverride == "" && currentUserId == ""
    ensures userIdOverride != "" ==> r == userIdOverride
    ensures userIdOverride == "" ==> r == currentUserId
  {
    if userIdOverride != "" then userIdOverride else currentUserId
  }

  /** `handleClockOut`: unchanged unless the target is clocked in; then the
      length of the first matching record's session, rounded to the nearest
      minute, is appended as a clock-out entry to every record with the id,
      and their sessions close. */
  function ClockOut(users: seq<User>, userIdOverride: string, currentUserId: string, now: int, loc: Locale): (r: seq<User>)
    ensures var id := ClockOutTarget(userIdOverride, currentUserId);
            !CanClockOut(users, id) ==> r == users
    ensures |r| == |users|
  {
    var id := ClockOutTarget(userIdOverride, currentUserId);
    if !CanClockOut(users, id) then users
    else
      var minutes := RoundMinutes(now - FindUser(users, id).value.session.value);
      UpdateWhere(users, id, EndSession(now, minutes, loc))
  }

  /** What a clock-in does to each record: every record with the id opens
      a session at `now` and gains a clock-in marker, every other is kept. */
  lemma ClockInEffect(users: seq<User>, id: string, now: int, loc: Locale, i: nat)
    requires CanClockIn(users, id) && i < |users|
    ensures ClockIn(users, id, now, loc)[i]
              == if users[i].id == id
                 then users[i].(session := Some(now), entries := users[i].entries + [ClockInEntry(now, loc)])
                 else users[i]
  {
  }

  /** What a clock-out does to each record: every record with the id closes
      its session and gains a clock-out entry whose duration is the first
      matching record's session length rounded to the minute; every other
      record is kept. */
  lemma ClockOutEffect(users: seq<User>, userIdOverride: string, currentUserId: string, now: int, loc: Locale, i: nat)
    requires CanClockOut(users, ClockOutTarget(userIdOverride, currentUserId)) && i < |users|
    ensures var id := ClockOutTarget(userIdOverride, currentUserId);
            var minutes := RoundMinutes(now - FindUser(users, id).value.session.value);
            ClockOut(users, userIdOverride, currentUserId, now, loc)[i]
              == if users[i].id == id
                 then users[i].(session := None, entries := users[i].entries + [ClockOutEntry(now, minutes, loc)])
                 else users[i]
  {
  }

  /** Clocking in twice is clocking in once: the second press finds the
      session open and does nothing. */
  lemma ClockInTwice(users: seq<User>, id: string, t0: int, t1: int, loc: Locale)
    ensures ClockIn(ClockIn(users, id, t0, loc), id, t1, loc) == ClockIn(users, id, t0, loc)
  {
    if CanClockIn(users, id) {
      FindAfterUpdate(users, id, StartSession(t0, loc), id);
    }
  }

  /** Clocking out twice is clocking out once. */
  lemma ClockOutTwice(users: seq<User>, id: string, t0: int, t1: int, loc: Locale)
    ensures ClockOut(ClockOut(users, "", id, t0, loc), "", id, t1, loc) == ClockOut(users, "", id, t0, loc)
  {
    if CanClockOut(users, id) {
      var minutes := RoundMinutes(t0 - FindUser(users, id).value.session.value);
      ClockOutIsUpdate(users, id, t0, loc, minutes);
      EndSessionKeepsId(t0, minutes, loc);
      FindAfterUpdate(users, id, EndSession(t0, minutes, loc), id);
    }
  }

  /** After a clock-in the user's record `u` has the session open at `now`
      and the marker appended; every other id finds what it found before. */
  lemma ClockInFinds(users: seq<User>, id: string, now: int, loc: Locale, u: User, other: string)
    requires id != "" && FindUser(users, id) == Some(u) && u.session.None?
    ensures FindUser(ClockIn(users, id, now, loc), id)
              == Some(u.(session := Some(now), entries := u.entries + [ClockInEntry(now, loc)]))
    ensures other != id ==> FindUser(ClockIn(users, id, now, loc), other) == FindUser(users, other)
  {
    assert ClockIn(users, id, now, loc) == UpdateWhere(users, id, StartSession(now, loc));
    StartSessionKeepsId(now, loc);
    FindAfterUpdate(users, id, StartSession(now, loc), other);
  }

  /** After a clock-out the user's record `u` has the session closed and
      the rounded clock-out entry appended; every other id finds what it
      found before. */
  lemma ClockOutFinds(users: seq<User>, id: string, now: int, loc: Locale, u: User, other: string)
    requires id != "" && FindUser(users, id) == Some(u) && u.session.Some?
    ensures FindUser(ClockOut(users, "", id, now, loc), id)
              == Some(u.(session := None, entries := u.entries + [ClockOutEntry(now, RoundMinutes(now - u.session.value), loc)]))
    ensures other != id ==> FindUser(ClockOut(users, "", id, now, loc), other) == FindUser(users, other)
  {
    var minutes := RoundMinutes(now - u.session.value);
    ClockOutIsUpdate(users, id, now, loc, minutes);
    EndSessionKeepsId(now, minutes, loc);
    FindAfterUpdate(users, id, EndSession(now, minutes, loc), other);
  }

  /** A clock-out that acts is the update of every record with the id. */
  lemma ClockOutIsUpdate(users: seq<User>, id: string, now: int, loc: Locale, minutes: int)
    requires CanClockOut(users, id)
    requires minutes == RoundMinutes(now - FindUser(users, id).value.session.value)
    ensures ClockOut(users, "", id, now, loc) == UpdateWhere(users, id, EndSession(now, minutes, loc))
  {
  }

  /** The whole cycle seen from the signed-in user: clock in at `t0`, out at
      `t1`, and the record gains the marker and then a clock-out entry of
      `round((t1 - t0) / 60000)` minutes, with the session closed again. */
  lemma ClockInThenOut(users: seq<User>, id: string, t0: int, t1: int, loc: Locale)
    requires CanClockIn(users, id)
    ensures var u := FindUser(users, id).value;
            FindUser(ClockOut(ClockIn(users, id, t0, loc), "", id, t1, loc), id)
              == Some(u.(entries := u.entries + [ClockInEntry(t0, loc)] + [ClockOutEntry(t1, RoundMinutes(t1 - t0), loc)]))
  {
    var u := FindUser(users, id).value;
    ClockInFinds(users, id, t0, loc, u, id);
    ClockOutAfterIn(ClockIn(users, id, t0, loc), id, t0, t1, loc, u);
  }

  /** The second half of the cycle, for any directory in which the user's
      record is `u` with the session opened at `t0`. */
  lemma ClockOutAfterIn(mid: seq<User>, id: string, t0: int, t1: int, loc: Locale, u: User)
    requires id != "" && u.session.None?
    requires FindUser(mid, id) == Some(u.(session := Some(t0), entries := u.entries + [ClockInEntry(t0, loc)]))
    ensures FindUser(ClockOut(mid, "", id, t1, loc), id)
              == Some(u.(entries := u.entries + [ClockInEntry(t0, loc)] + [ClockOutEntry(t1, RoundMinutes(t1 - t0), loc)]))
  {
    ClockOutFinds(mid, id, t1, loc, u.(session := Some(t0), entries := u.entries + [ClockInEntry(t0, loc)]), id);
  }

  /** Neither half of the cycle touches what any other id finds. */
  lemma ClockInThenOutOthers(users: seq<User>, id: string, t0: int, t1: int, loc: Locale, other: string)
    requires CanClockIn(users, id) && other != id
    ensures FindUser(ClockOut(ClockIn(users, id, t0, loc), "", id, t1, loc), other) == FindUser(users, other)
  {
    var u := FindUser(users, id).value;
    ClockInFinds(users, id, t0, loc, u, other);
    ClockOutFinds(ClockIn(users, id, t0, loc), id, t1, loc, u.(session := Some(t0), entries := u.entries + [ClockInEntry(t0, loc)]), other);
  }

  /** A clock-out adds the rounded session length to the user's total. */
  lemma ClockOutAddsToTotal(users: seq<User>, id: string, now: int, loc: Locale)
    requires CanClockOut(users, id)
    ensures var u := FindUser(users, id).value;
            TotalMinutesForUser(FindUser(ClockOut(users, "", id, now, loc), id).value)
              == TotalMinutesForUser(u) + RoundMinutes(now - u.session.value)
  {
    var u := FindUser(users, id).value;
    var e := ClockOutEntry(now, RoundMinutes(now - u.session.value), loc);
    ClockOutFinds(users, id, now, loc, u, id);
    TotalAfterAppend(u, u.(session := None, entries := u.entries + [e]), e);
  }

  /** Appending one entry to a record adds that entry's minutes to its total. */
  lemma TotalAfterAppend(u: User, v: User, e: Entry)
    requires v.entries == u.entries + [e]
    ensures TotalMinutesForUser(v) == TotalMinutesForUser(u) + Minutes(e)
  {
    TotalMinutesIsSumOfDurations(u);
    TotalMinutesIsSumOfDurations(v);
    SumMinutesAppend(u.entries, [e]);
    assert [e][..0] == [];
  }

  lemma EndSessionKeepsId(now: int, minutes: int, loc: Locale)
    ensures forall u :: EndSession(now, minutes, loc)(u).id == u.id
  {
  }

  lemma StartSessionKeepsId(now: int, loc: Locale)
    ensures forall u :: StartSession(now, loc)(u).id == u.id
  {
  }

  /** A session shorter than 30 seconds is stored as 0 minutes, and that
      entry leaves the total where it was. */
  lemma ShortSessionCountsNothing(users: seq<User>, id: string, now: int, loc: Locale)
    requires CanClockOut(users, id)
    requires 0 <= now - FindUser(users, id).value.session.value < 30000
    ensures RoundMinutes(now - FindUser(users, id).value.session.value) == 0
    ensures TotalMinutesForUser(FindUser(ClockOut(users, "", id, now, loc), id).value)
              == TotalMinutesForUser(FindUser(users, id).value)
  {
    RoundMinutesUnique(now - FindUser(users, id).value.session.value, 0);
    ClockOutAddsToTotal(users, id, now, loc);
  }
}
