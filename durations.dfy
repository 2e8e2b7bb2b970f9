/** Duration aggregation (src/App.js:481-502 and 775-778): every total is a
    filter over a user's entries followed by a sum of `durationMinutes`,
    and every filter keeps only entries whose duration is truthy. */
module Durations {
  import opened Wrappers
  import opened Records

  /** `entries.filter(keep)`, order kept. */
  function Filter(entries: seq<Entry>, keep: Entry -> bool): (r: seq<Entry>)
    ensures |r| <= |entries|
    ensures forall e :: e in r ==> e in entries && keep(e)
    ensures forall i :: 0 <= i < |entries| && keep(entries[i]) ==> entries[i] in r
  {
    if |entries| == 0 then []
    else
      var init := Filter(entries[..|entries| - 1], keep);
      var last := entries[|entries| - 1];
      if keep(last) then init + [last] else init
  }

  /** `reduce((sum, e) => sum + e.durationMinutes, 0)` over entries whose
      duration is truthy; an entry without one adds nothing. */
  function SumMinutes(entries: seq<Entry>): int {
    if |entries| == 0 then 0
    else SumMinutes(entries[..|entries| - 1]) + Minutes(entries[|entries| - 1])
  }

  /** The weekly filter: a `raw` instant at or after `weekStart`, and a truthy duration. */
  function CountsForWeek(weekStart: int): Entry -> bool {
    (e: Entry) => e.raw.Some? && e.raw.value >= weekStart && HasDuration(e)
  }

  /** The per-day filter of the history page, then the truthy-duration filter. */
  function OnDay(dateOf: int -> string, day: string): Entry -> bool {
    (e: Entry) => e.raw.Some? && dateOf(e.raw.value) == day
  }

  /** `totalMinutesForUser`. */
  function TotalMinutesForUser(u: User): int {
    SumMinutes(Filter(u.entries, HasDuration))
  }

  /** `weeklyMinutesForUser`: no upper bound on the `raw` instant. */
  function WeeklyMinutesForUser(u: User, weekStart: int): int {
    SumMinutes(Filter(u.entries, CountsForWeek(weekStart)))
  }

  /** `totalMinutesAllUsers`. */
  function TotalMinutesAllUsers(users: seq<User>): int {
    if |users| == 0 then 0
    else TotalMinutesAllUsers(users[..|users| - 1]) + TotalMinutesForUser(users[|users| - 1])
  }

  /** `weeklyMinutesAllUsers`. */
  function WeeklyMinutesAllUsers(users: seq<User>, weekStart: int): int {
    if |users| == 0 then 0
    else WeeklyMinutesAllUsers(users[..|users| - 1], weekStart) + WeeklyMinutesForUser(users[|users| - 1], weekStart)
  }

  /** `getTotalForDay(grouped[day])`: the history page groups the entries that
      have a `raw` instant by its locale date, then sums the group. */
  function DayTotal(entries: seq<Entry>, dateOf: int -> string, day: string): int {
    SumMinutes(Filter(Filter(entries, OnDay(dateOf, day)), HasDuration))
  }

  /** `allEntries`: every user's entries, users in order, entries in stored order. */
  function AllEntries(users: seq<User>): seq<Entry> {
    if |users| == 0 then [] else AllEntries(users[..|users| - 1]) + users[|users| - 1].entries
  }

  /** Filtering a concatenation filters each part and keeps them in order;
      with `Filter([e]) == if keep(e) then [e] else []` this fixes the order
      of every filter result. */
  lemma {:induction false} FilterAppend(a: seq<Entry>, b: seq<Entry>, keep: Entry -> bool)
    ensures Filter(a + b, keep) == Filter(a, keep) + Filter(b, keep)
  {
    if |b| > 0 {
      assert (a + b)[..|a + b| - 1] == a + b[..|b| - 1];
      FilterAppend(a, b[..|b| - 1], keep);
    } else {
      assert a + b == a;
    }
  }

  lemma {:induction false} SumMinutesAppend(a: seq<Entry>, b: seq<Entry>)
    ensures SumMinutes(a + b) == SumMinutes(a) + SumMinutes(b)
  {
    if |b| > 0 {
      assert (a + b)[..|a + b| - 1] == a + b[..|b| - 1];
      SumMinutesAppend(a, b[..|b| - 1]);
    } else {
      assert a + b == a;
    }
  }

  /** Filtering out entries that add nothing does not change a sum. */
  lemma {:induction false} SumMinutesFilterDuration(entries: seq<Entry>, keep: Entry -> bool)
    requires forall e :: HasDuration(e) ==> keep(e)
    ensures SumMinutes(Filter(entries, keep)) == SumMinutes(entries)
  {
    if |entries| > 0 {
      var init := entries[..|entries| - 1];
      SumMinutesFilterDuration(init, keep);
      var last := entries[|entries| - 1];
      if keep(last) {
        SumMinutesAppend(Filter(init, keep), [last]);
        assert [last][..0] == [];
      }
    }
  }

  /** A user's total is the sum of every entry's truthy duration: an entry
      with a zero or missing duration (a clock-out within 30 seconds, a
      clock-in marker) contributes nothing. */
  lemma TotalMinutesIsSumOfDurations(u: User)
    ensures TotalMinutesForUser(u) == SumMinutes(u.entries)
  {
    SumMinutesFilterDuration(u.entries, HasDuration);
  }

  /** Removing one entry takes exactly its minutes off the sum. */
  lemma {:induction false} SumMinutesRemove(entries: seq<Entry>, i: nat)
    requires i < |entries|
    ensures SumMinutes(entries) == SumMinutes(entries[..i] + entries[i + 1..]) + Minutes(entries[i])
  {
    assert entries == entries[..i] + [entries[i]] + entries[i + 1..];
    SumMinutesAppend(entries[..i] + [entries[i]], entries[i + 1..]);
    SumMinutesAppend(entries[..i], [entries[i]]);
    SumMinutesAppend(entries[..i], entries[i + 1..]);
    assert [entries[i]][..0] == [];
  }

  /** Sums do not depend on entry order: two lists with the same entries
      (as a multiset) have the same sum. */
  lemma {:induction false} SumMinutesPermutation(a: seq<Entry>, b: seq<Entry>)
    requires multiset(a) == multiset(b)
    ensures SumMinutes(a) == SumMinutes(b)
    decreases |a|
  {
    if |a| > 0 {
      var last := a[|a| - 1];
      assert last in multiset(b);
      var j :| 0 <= j < |b| && b[j] == last;
      var a' := a[..|a| - 1];
      var b' := b[..j] + b[j + 1..];
      assert a == a' + [last];
      assert b == b[..j] + [b[j]] + b[j + 1..];
      assert multiset(a) == multiset(a') + multiset{last};
      assert multiset(b) == multiset(b[..j]) + multiset{last} + multiset(b[j + 1..]);
      assert multiset(b') == multiset(b[..j]) + multiset(b[j + 1..]);
      assert multiset(a') == multiset(a) - multiset{last};
      assert multiset(b') == multiset(b) - multiset{last};
      SumMinutesPermutation(a', b');
      SumMinutesRemove(b, j);
    } else {
      assert |b| == 0;
    }
  }

  /** The weekly total counts an entry however far after `weekStart` it starts. */
  lemma WeeklyMinutesNoUpperBound(u: User, weekStart: int, e: Entry)
    requires e.raw.Some? && e.raw.value >= weekStart
    ensures WeeklyMinutesForUser(u.(entries := u.entries + [e]), weekStart)
         == WeeklyMinutesForUser(u, weekStart) + Minutes(e)
  {
    FilterAppend(u.entries, [e], CountsForWeek(weekStart));
    SumMinutesAppend(Filter(u.entries, CountsForWeek(weekStart)), Filter([e], CountsForWeek(weekStart)));
    assert [e][..0] == [];
  }

  /** The weekly total never exceeds the total when no duration is negative. */
  lemma {:induction false} WeeklyAtMostTotal(entries: seq<Entry>, weekStart: int)
    requires forall i :: 0 <= i < |entries| ==> Minutes(entries[i]) >= 0
    ensures SumMinutes(Filter(entries, CountsForWeek(weekStart))) <= SumMinutes(entries)
    ensures SumMinutes(entries) >= 0
  {
    if |entries| > 0 {
      var init := entries[..|entries| - 1];
      WeeklyAtMostTotal(init, weekStart);
      var last := entries[|entries| - 1];
      if CountsForWeek(weekStart)(last) {
        SumMinutesAppend(Filter(init, CountsForWeek(weekStart)), [last]);
        assert [last][..0] == [];
      }
    }
  }

  /** The all-users total is the sum over `allEntries`. */
  lemma {:induction false} TotalAllUsersIsSumOfAllEntries(users: seq<User>)
    ensures TotalMinutesAllUsers(users) == SumMinutes(AllEntries(users))
  {
    if |users| > 0 {
      var init := users[..|users| - 1];
      TotalAllUsersIsSumOfAllEntries(init);
      TotalMinutesIsSumOfDurations(users[|users| - 1]);
      SumMinutesAppend(AllEntries(init), users[|users| - 1].entries);
    }
  }

  /** The all-users figures add per-user figures: splitting the directory splits the sums. */
  lemma {:induction false} AllUsersAppend(a: seq<User>, b: seq<User>, weekStart: int)
    ensures TotalMinutesAllUsers(a + b) == TotalMinutesAllUsers(a) + TotalMinutesAllUsers(b)
    ensures WeeklyMinutesAllUsers(a + b, weekStart) == WeeklyMinutesAllUsers(a, weekStart) + WeeklyMinutesAllUsers(b, weekStart)
  {
    if |b| > 0 {
      assert (a + b)[..|a + b| - 1] == a + b[..|b| - 1];
      AllUsersAppend(a, b[..|b| - 1], weekStart);
    } else {
      assert a + b == a;
    }
  }

  /** A day's total grows by an appended entry's minutes exactly when that
      entry starts on that day; entries of other days do not touch it. */
  lemma DayTotalAppend(entries: seq<Entry>, dateOf: int -> string, day: string, e: Entry)
    ensures DayTotal(entries + [e], dateOf, day)
         == DayTotal(entries, dateOf, day) + if e.raw.Some? && dateOf(e.raw.value) == day then Minutes(e) else 0
  {
    var p := OnDay(dateOf, day);
    var before := Filter(Filter(entries, p), HasDuration);
    FilterTwiceSnoc(entries, e, p, HasDuration);
    if p(e) && HasDuration(e) {
      assert (before + [e])[..|before|] == before;
    }
  }

  /** Two filters over one more entry: that entry is kept exactly when it passes both. */
  lemma FilterTwiceSnoc(entries: seq<Entry>, e: Entry, p: Entry -> bool, q: Entry -> bool)
    ensures Filter(Filter(entries + [e], p), q)
         == Filter(Filter(entries, p), q) + (if p(e) && q(e) then [e] else [])
  {
    assert (entries + [e])[..|entries|] == entries;
    if p(e) {
      var x := Filter(entries, p);
      assert (x + [e])[..|x|] == x;
    }
  }
}
