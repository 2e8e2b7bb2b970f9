# Timeclock core, modelled in Dafny

This project models the business logic of a React timeclock app
(`src/App.js`). It covers:

- the user directory with its built-in admin account and the sign-in decision;
- the clock-in/clock-out state machine;
- editing, deleting and adding punches after the fact;
- the duration totals;
- the weekly CSV export.

The model keeps the app's representation:

- Instants are integer milliseconds.
- A user is a record with id, name, passcode, entries and an optional open-session start.
- An entry has a kind, a locale time text, an optional instant (`raw`) and an optional duration in minutes. `raw` is the clock-in instant on a clock-in marker and on an added or edited punch, but the clock-out instant on the entry a live clock-out appends (src/App.js:634). The history page and the export read `raw` as the clock-in either way, and the model keeps this.

The host locale's formatters are opaque, and so are the mapping from date components to an instant, the clock, and the answers to confirm and prompt dialogs. All of these are parameters. The empty string stands for the app's null or empty user id.

Modules, in dependency order:

- `Wrappers`: `Option` and `Result`.
- `Text`: JavaScript `trim`, `split`, `parseInt`, `String(n)` and ASCII case mapping.
- `TimeText`:
  - `parseLocalDateTime`, `formatHoursMinutes`;
  - `Math.round(ms / 60000)`, written as `(ms + 30000) / 60000`.
- `Records`: the data model, `getUserById`/`updateUser`, `ensureAdminUser`, `handleLogin`'s decision.
- `Durations`: the filter-and-sum totals.
- `Sessions`: `handleClockIn` and `handleClockOut`.
- `Punches`: `findIndex` over a day's punches, `saveEditPunch`, `deletePunch` and `addPunchForUser`.
- `Directory`: `handleAddUser`, `saveEditUser`, `deleteUser` and `resetData`.
- `Csv`: cell quoting and row joining; a decoder is the inverse the round trip is proved against.
- `Reports`: the row selection of `generateWeeklyCsv`.
- `App`:
  - the `Timeclock` class, holding `users`, `currentUserId`, `isAdmin` and `isAuthenticated`, with one method per handler;
  - the loops that copy and rewrite entry arrays;
  - the nested loops that build the CSV rows.

Three places where the app's code does something other than its screens suggest, and the model follows the code:

- A new user's passcode is checked only for length four, not for being digits, so the code accepts more than the form's hint.
- The CSV header row is quoted like every other row: the code maps every row, header included, through the quoting step.
- A session closed with the clock-out button is stored with `raw` set to the clock-out instant (src/App.js:634). The export reads `raw` as the clock-in, so such a row shows the clock-out time under "Clock In" and the clock-out time plus the session's length under "Clock Out". The export week of the row is decided by the clock-out instant too. `Reports.LiveSessionRowUsesClockOut` states this.

## Model

| member | source | states |
|---|---|---|
| Text.TrimStart | src/App.js:22 | what `trim` drops at the front is all JavaScript white space, and what remains is a suffix that does not start with white space |
| Text.TrimEnd | src/App.js:22 | what `trim` drops at the end is all white space, and what remains is a prefix that does not end with white space |
| Text.Trim | src/App.js:22 | `trim`: no contract of its own; it is `TrimEnd` after `TrimStart`, whose rows state what each end loses and keeps |
| Text.Split | src/App.js:22-26 | `split(sep)` yields at least one part, no part contains the separator, and joining the parts with it gives the input back |
| Text.SplitJoin | src/App.js:22-26 | splitting a join of separator-free parts gives exactly those parts |
| Text.DigitPrefix | src/App.js:25-29 | the digit run `parseInt` reads is the longest all-digit prefix |
| Text.NatToString | src/App.js:50 | a natural number prints as a non-empty digit string whose value is that number |
| Text.IntToString | src/App.js:1331 | `String(n)` of an integer: no contract of its own; `ParseIntOfIntToString` states that `parseInt` reads it back as `n` |
| Text.ParseInt | src/App.js:25-29 | `parseInt(s, 10)`: no contract of its own; `DigitsThenStop` and `ParseIntOfIntToString` state what it reads from a digit run and from printed integers |
| Text.DigitsThenStop | src/App.js:25-29 | `parseInt` of a digit run followed by a non-digit is the run's value |
| Text.ParseIntOfIntToString | src/App.js:1198 | `parseInt(String(n))` gives back `n` for every integer, negative ones included |
| Text.ToLower | src/App.js:546 | `toLowerCase` keeps the length, leaves no upper-case ASCII letter, turns each one into its lower-case partner in place and keeps every other character |
| Text.CaseMapsIdempotent | src/App.js:546 | lower-casing twice is lower-casing once, and so for upper-casing |
| Text.ToUpper | src/App.js:31 | `toUpperCase` keeps the length, leaves no lower-case ASCII letter, turns each one into its upper-case partner in place and keeps every other character |
| TimeText.RoundMinutes | src/App.js:624 | `Math.round(ms / 60000)` is the minute count within half a minute of `ms`, ties rounding up |
| TimeText.RoundMinutesUnique | src/App.js:624 | that minute count is the only one within half a minute |
| TimeText.ParseLocalDateTime | src/App.js:20-37 | no contract of its own; `ParseLocalDateTimeRejects` states what a successful parse implies about the text, `ParseLocalDateTimeAccepts` which texts parse to which fields |
| TimeText.ParseLocalDateTimeRejects | src/App.js:20-37 | a parse succeeds only if the trimmed text has exactly three space-separated parts, non-zero month, day and year, and a time part with non-empty numeric hour and minute |
| TimeText.ParseLocalDateTimeAccepts | src/App.js:20-37 | `M/D/Y H:M suffix` with digit fields and non-zero month, day and year parses to those numbers; `PM` adds 12 unless the hour is 12, `12 AM` becomes 0, and other suffixes keep the hour |
| TimeText.ParseFormatRoundTrip | src/App.js:6-37 | every en-US `MM/DD/YYYY H:MM AM/PM` text, with an ASCII space before the suffix, parses back to the same date and time |
| TimeText.FormatHoursMinutes | src/App.js:46-51 | no contract of its own; `FormatHoursMinutesMeaning` states that the text reads back as the whole hours and the remaining minutes |
| TimeText.FormatHoursMinutesMeaning | src/App.js:46-51 | the text reads back as `h` and `m` with `m < 60`; it is `0h 0m` for non-positive input and `h*60 + m == n` for positive `n` |
| Records.FindUserIndex | src/App.js:462 | `find` returns the first position with the id, or -1 exactly when no user has it |
| Records.FindUser | src/App.js:462 | `getUserById` is null exactly when no user has the id; otherwise the user it returns has that id |
| Records.FindUserIsFirst | src/App.js:462 | the user `find` returns is listed, and no user before it has the id |
| Records.UpdateWhere | src/App.js:464-468 | `updateUser` keeps the length; every record with the id becomes its changed version and every other record is kept in place |
| Records.FindAfterUpdate | src/App.js:462-468 | after an id-preserving update, the id finds the changed first record, an unknown id changes nothing, and every other id finds what it found before |
| Records.EnsureAdmin | src/App.js:351-364 | the result always has an admin; a list with one is returned as is, and one without gains exactly the admin record at the end |
| Records.AdminCountZero | src/App.js:352 | the number of records with the admin id is zero exactly when the `some(u => u.id === "admin")` test fails |
| Records.EnsureAdminIdempotent | src/App.js:351-364 | applying it twice equals applying it once, and it adds an admin only when there were none |
| Records.Login | src/App.js:506-529 | the admin code signs in as admin, as the selected id or `admin` if none; otherwise an unknown id is "not found", a matching passcode signs in as that user, and anything else is "incorrect passcode" |
| Durations.Filter | src/App.js:483 | `filter` keeps only entries of the input that pass the test, and keeps every entry that passes |
| Durations.FilterAppend | src/App.js:483 | filtering a concatenation is concatenating the filtered parts, so the kept entries stay in stored order |
| Durations.SumMinutes | src/App.js:484 | the `reduce` over durations: no contract of its own; `SumMinutesAppend`, `SumMinutesRemove` and `SumMinutesPermutation` state that it is additive, loses exactly a removed entry and ignores order |
| Durations.TotalMinutesForUser | src/App.js:481-484 | no contract of its own; `TotalMinutesIsSumOfDurations` states that it sums the truthy durations of all the user's entries |
| Durations.CountsForWeek | src/App.js:486-491 | no contract of its own; `WeeklyMinutesNoUpperBound` states that every entry at or after the week start passes, however late |
| Durations.WeeklyMinutesForUser | src/App.js:486-492 | no contract of its own; `WeeklyAtMostTotal` and `WeeklyMinutesNoUpperBound` bound it by the total and show it has no end bound |
| Durations.TotalMinutesAllUsers | src/App.js:494-497 | no contract of its own; `TotalAllUsersIsSumOfAllEntries` and `AllUsersAppend` state that it sums over every user's entries and adds up over a split of the directory |
| Durations.WeeklyMinutesAllUsers | src/App.js:499-502 | no contract of its own; `AllUsersAppend` states that it adds up over a split of the directory |
| Durations.DayTotal | src/App.js:766-778 | no contract of its own; `DayTotalAppend` states that one more entry changes it by that entry's minutes exactly when the entry falls on that day |
| Durations.SumMinutesFilterDuration | src/App.js:481-484 | dropping entries without a truthy duration before summing changes nothing |
| Durations.TotalMinutesIsSumOfDurations | src/App.js:481-484 | a user's total is the sum of the truthy durations of all their entries |
| Durations.SumMinutesAppend | src/App.js:484 | the sum of a concatenation is the sum of the sums |
| Durations.SumMinutesRemove | src/App.js:481-484 | removing one entry takes exactly its minutes off the sum |
| Durations.SumMinutesPermutation | src/App.js:481-484 | a total does not depend on the order of the entries |
| Durations.WeeklyMinutesNoUpperBound | src/App.js:486-492 | any entry starting at or after the week start adds its minutes to the weekly total, however late it starts |
| Durations.WeeklyAtMostTotal | src/App.js:481-492 | with non-negative durations the weekly figure never exceeds the total |
| Durations.TotalAllUsersIsSumOfAllEntries | src/App.js:470-477 | the all-users total is the sum over the flattened `allEntries` |
| Durations.AllUsersAppend | src/App.js:494-502 | both all-users figures add up over a split of the directory |
| Durations.DayTotalAppend | src/App.js:766-778 | one more entry changes a day's total by its minutes exactly when it has a start on that locale date |
| Csv.Escape | src/App.js:1331 | the escaped cell is longer than the cell by exactly its number of double quotes |
| Csv.QuoteCell | src/App.js:1331 | an encoded cell starts and ends with a quote |
| Csv.ReadEscaped | src/App.js:1331 | removing the outer quotes and un-doubling recovers the cell, and the text after the closing quote is left unread |
| Csv.EncodeRow | src/App.js:1331 | quoted cells joined by commas: no contract of its own; `DecodeEncode` states that a row list made of such rows decodes back exactly |
| Csv.EncodeCsv | src/App.js:1330-1332 | rows joined by line feeds: no contract of its own; `DecodeEncode` and `EncodeCsvInjective` state that it is inverted by `DecodeCsv` and never maps two tables to one text |
| Csv.DecodeCsv | src/App.js:1330-1332 | the reader the export is checked against: a decoded table has at least one row and every row at least one cell |
| Csv.DecodeEncode | src/App.js:1330-1332 | the joined CSV text decodes back to exactly the rows it was made from |
| Csv.EncodeCsvInjective | src/App.js:1330-1332 | different row lists never produce the same CSV text |
| Reports.EntryRow | src/App.js:1316-1326 | each exported row has five cells: the user's name, the locale date of `raw`, the formatted `raw` under "Clock In", the formatted `raw` plus the duration in minutes under "Clock Out", and the duration |
| Reports.EntryRowDurationReadsBack | src/App.js:1325 | the fifth cell reads back with `parseInt` as the entry's duration |
| Reports.LiveSessionRowUsesClockOut | src/App.js:630-635 | the entry a live session closes with (the one `Sessions.ClockInThenOut` shows) has `raw` equal to the clock-out instant `t1`, so its row shows `t1` under "Clock In" and `t1` plus the session's minutes under "Clock Out", and it is exported exactly when its minutes are non-zero and `t1` lies in the week |
| Reports.Selected | src/App.js:1309 | the user test of the export: no contract of its own; `FilterSelectsUsers` and `UnselectedUserAddsNothing` state what it keeps and what it drops |
| Reports.InExportWeek | src/App.js:1312-1314 | the entry test of the export: no contract of its own; `EntryRowsAreSelectedEntries` and `WindowBoundaries` state that it selects exactly the rows and bounds the week half open |
| Reports.EntryRows | src/App.js:1311-1327 | every row of one user has five cells and starts with the user's name; `EntryRowsAreSelectedEntries` states which entries give rows |
| Reports.UserRows | src/App.js:1308-1328 | every row has five cells; `UnselectedUserAddsNothing` states that an unselected user adds none |
| Reports.WeeklyRows | src/App.js:1301-1328 | the export starts with the header row, and every row has five cells |
| Reports.WeeklyCsv | src/App.js:1300-1332 | no contract of its own; `WeeklyCsvDecodes` states that the text decodes into exactly the header and rows |
| Reports.WeeklyCsvDecodes | src/App.js:1300-1332 | the weekly CSV decodes into exactly its header and rows |
| Reports.EntryRowsAreSelectedEntries | src/App.js:1311-1327 | a user's rows are, one to one and in stored order, the entries with a truthy duration and a start inside the week |
| Reports.ZeroDurationHasNoRow | src/App.js:1312 | an entry with duration 0 or none gets no row |
| Reports.WindowBoundaries | src/App.js:1304-1314 | the window is half open: a start at `weekStart` gets a row, and a start seven days later does not |
| Reports.AfterWeekCountedButNotExported | src/App.js:490 | an entry starting after the week adds to the weekly total, yet gets no CSV row |
| Reports.ExportMatchesWeeklyTotal | src/App.js:1311-1314 | when nothing starts after the week, the export selects exactly the entries the weekly total counts |
| Reports.MatchingUsers | src/App.js:1309 | the users a one-id filter lets through are exactly the listed users with that id |
| Reports.MatchingUsersAppend | src/App.js:1308-1309 | selecting from a concatenation is concatenating the selections, so the selected users stay in directory order |
| Reports.FilterSelectsUsers | src/App.js:1309 | a filter naming one id exports exactly what `"all"` exports for the users with that id |
| Reports.UnselectedUserAddsNothing | src/App.js:1309 | a user the filter does not select adds no row |
| Sessions.ClockIn | src/App.js:595-614 | with an empty id, an unknown user or an open session nothing changes; the directory length is kept |
| Sessions.CanClockIn | src/App.js:595-598 | the guard of `handleClockIn`: no contract of its own; `Sessions.ClockIn` states that nothing changes when it fails |
| Sessions.ClockInEffect | src/App.js:595-614 | a clock-in opens a session at `now` and appends a clock-in marker without a duration to every record with the id, and keeps every other record |
| Sessions.ClockOut | src/App.js:616-639 | unless the target (the override, else the signed-in user) has an open session, nothing changes; the directory length is kept |
| Sessions.ClockOutTarget | src/App.js:617 | the target of `handleClockOut`: the override when it is non-empty, otherwise the signed-in id, and empty exactly when both are |
| Sessions.ClockOutEffect | src/App.js:616-639 | a clock-out closes the session and appends a clock-out entry of the rounded session minutes to every record with the id, and keeps every other record |
| Sessions.ClockInTwice | src/App.js:598 | a second clock-in is a no-op |
| Sessions.ClockOutTwice | src/App.js:620 | a second clock-out is a no-op |
| Sessions.ClockInFinds | src/App.js:595-614 | after a clock-in, the user finds their record with the session open and the marker appended, and every other id finds what it found before |
| Sessions.ClockOutFinds | src/App.js:616-639 | after a clock-out, the user finds their record with the session closed and the rounded entry appended, and every other id finds what it found before |
| Sessions.ClockInThenOut | src/App.js:595-639 | a full cycle appends the two entries, the second carrying `round((t1 - t0) / 60000)`, and leaves the user idle again |
| Sessions.ClockInThenOutOthers | src/App.js:595-639 | a full cycle leaves every other user's lookup unchanged |
| Sessions.ClockOutAddsToTotal | src/App.js:616-639 | a clock-out adds the rounded session length to the user's total |
| Sessions.ShortSessionCountsNothing | src/App.js:624 | a session under 30 seconds is stored as 0 minutes and leaves the total unchanged |
| Punches.FindPunchIndex | src/App.js:229-235 | `findIndex` returns the first entry with the same `raw` instant and duration, or -1 exactly when there is none |
| Punches.FindPunchIndexOfListed | src/App.js:226-235 | a listed entry's lookup lands on it or on an earlier entry with the same start and duration |
| Punches.CheckEdit | src/App.js:1191-1214 | the edit checks run in the source's order, and each one fails exactly when the source's does. A given clock-out overrides the typed duration with the rounded difference; a blank one uses the typed duration; success always means a positive duration |
| Punches.ReadEdit | src/App.js:1191-1214 | no contract of its own; it feeds the three parses to `CheckEdit`, whose iff clauses state every outcome, and `EditPunchSample` shows one accepted edit |
| Punches.ReplaceAt | src/App.js:1219-1226 | inside `[0, length)` only that position changes: it keeps its kind and takes the new start, time and duration. Any other index changes nothing |
| Punches.SaveEditPunchOutcome | src/App.js:1185-1231 | with no open edit, an unknown user or invalid fields, nothing changes and the matching reason is reported |
| Punches.SaveEditPunchEffect | src/App.js:1216-1228 | a successful edit changes only the edited position of the edited user's records, and keeps each record's id, name, passcode, session and entry count |
| Punches.SaveEditPunch | src/App.js:1185-1231 | no contract of its own; `SaveEditPunchOutcome` states its error results and `SaveEditPunchEffect` what a successful edit changes |
| Punches.EditAtMinusOneChangesNothing | src/App.js:1220 | assigning at index -1 leaves the entry list unchanged |
| Punches.Splice1 | src/App.js:1239 | `splice(start, 1)` at a start inside the list drops exactly that entry: earlier entries stay in place, later ones move down by one, and the multiset loses that one entry; a start at or past the end changes nothing |
| Punches.DeleteAtRemovesOne | src/App.js:1238-1239 | deleting inside the list drops the length by one, keeps earlier entries in place and shifts later ones down one place; the removed entry is exactly what is missing |
| Punches.DeleteAtMinusOneRemovesLast | src/App.js:1239 | `splice(-1, 1)` removes the last entry |
| Punches.DeletePunch | src/App.js:1233-1243 | without confirmation nothing changes; otherwise every record with the id loses the entry at that position, and every other record is kept |
| Punches.CheckAddedPunchErrors | src/App.js:1251-1277 | a cancelled or empty prompt, an unparsable clock-out and a clock-out not after the clock-in are each reported exactly when the earlier checks pass and that one fails |
| Punches.CheckAddedPunch | src/App.js:1245-1277 | an added punch is accepted exactly when a user is selected, both answers are non-empty and parse, and the rounded difference is positive. The punch starts at the clock-in instant with that difference as its duration |
| Punches.ReadAddedPunch | src/App.js:1251-1277 | no contract of its own; it feeds the two parses to `CheckAddedPunch`, and `CheckAddedPunchErrors` and `AddedFromParses` state its outcomes |
| Punches.AddPunch | src/App.js:1245-1296 | a failure changes nothing and reports the first failed check; a success appends the new entry to every record with the id, and keeps every other record |
| Punches.AddedPunchCounts | src/App.js:1273-1291 | an added punch always has a positive duration, so it always counts toward the totals |
| Punches.StampTextParses | src/App.js:20-37 | typed digit fields and a suffix parse to exactly those numbers on the 24-hour clock |
| Punches.MorningSampleParses | src/App.js:20-37 | `06/01/2024 09:00 AM`, written from its digit fields, parses to 09:00 of that day |
| Punches.EveningSampleParses | src/App.js:20-37 | `06/01/2024 05:00 PM`, written from its digit fields, parses to 17:00 of that day |
| Punches.AddedFromParses | src/App.js:1251-1277 | two answers that parse, with a positive rounded difference, pass every check and give a punch at the clock-in instant of that many minutes |
| Punches.RoundWholeMinutes | src/App.js:1273 | a difference of exactly `m` whole minutes rounds to `m` |
| Punches.AddPunchSample | src/App.js:1245-1277 | answers that parse to 09:00 and 17:00 of one day, eight hours apart, give a 480-minute punch at the clock-in instant |
| Punches.EditPunchSample | src/App.js:1191-1214 | editing to 09:00 AM with a blank clock-out and a typed duration of `90` gives a 90-minute punch |
| Directory.NewUserIdShape | src/App.js:546 | a new id is the trimmed, lower-cased name, a dash, and the decimal digits of the stamp |
| Directory.ValidForm | src/App.js:541 | the form check of `handleAddUser`: no contract of its own; `Directory.AddUser` states that a user is added exactly when it holds |
| Directory.NewUserId | src/App.js:546 | no contract of its own; `NewUserIdShape` states its shape |
| Directory.AddUser | src/App.js:540-562 | a user is added exactly when the trimmed name is not blank and the passcode has four characters; the new idle user with no entries is appended at the end |
| Directory.AddUserFinds | src/App.js:546-557 | a fresh id finds the new user, every earlier lookup is unchanged, and the totals do not move |
| Directory.AppendedUserFinds | src/App.js:548-557 | appending a record adds its minutes to the all-users total and changes no earlier lookup |
| Directory.SaveEditUser | src/App.js:570-586 | with no open edit or an invalid form nothing changes. Otherwise every record with the edited id takes the trimmed name and the new passcode, and every other record is kept |
| Directory.SaveEditUserKeepsTime | src/App.js:577-583 | editing a user keeps every entry list, open session and total |
| Directory.WithoutId | src/App.js:590 | the filtered list holds only records of the input, none with the id, and holds every record without the id |
| Directory.WithoutIdAppend | src/App.js:590 | removing an id from a concatenation removes it from each part, so the kept records stay in directory order |
| Directory.DeleteUser | src/App.js:588-591 | without confirmation nothing changes; otherwise the records with the id are filtered out |
| Directory.DeleteUserFinds | src/App.js:590 | after the delete the id is gone, and every other id finds what it found before |
| Directory.DeleteUserTotals | src/App.js:590 | the delete removes exactly the deleted records' minutes from the all-users total |
| Directory.ResetData | src/App.js:651-665 | without confirmation nothing changes; otherwise every user keeps id, name and passcode and loses all entries and any open session |
| Directory.ResetDataClears | src/App.js:651-665 | after a reset every total is zero, nobody is clocked in, and an existing admin account is still there |
| App.ReplacedCopy | src/App.js:1219-1226 | the array copy with the edited position rewritten is the `ReplaceAt` list |
| App.SplicedCopy | src/App.js:1238-1239 | the array copy with one element spliced out is the `Splice1` list |
| App.EditInEach | src/App.js:1216-1228 | the loop over users rewrites exactly the records with the id |
| App.SpliceInEach | src/App.js:1235-1242 | the loop over users splices exactly the records with the id |
| App.EditPunchCopying | src/App.js:1185-1228 | the step-by-step handler agrees with `SaveEditPunch` on every input |
| App.Timeclock.constructor | src/App.js:366-372 | the app starts with no users and nobody signed in |
| App.Timeclock.Load | src/App.js:418-436 | a fetched array replaces the directory and a failed load keeps it; either way the admin account is then present |
| App.Timeclock.SignIn | src/App.js:506-529 | a granted sign-in sets the signed-in id and the admin flag, and a refused one changes nothing |
| App.Timeclock.SignOut | src/App.js:531-536 | sign-out clears the signed-in id and both flags |
| App.Timeclock.AddUser | src/App.js:540-562 | the directory becomes `AddUser`'s result, or stays the same on refusal |
| App.Timeclock.SaveEditUser | src/App.js:570-586 | the directory becomes `SaveEditUser`'s result, or stays the same on refusal |
| App.Timeclock.DeleteUser | src/App.js:588-591 | the directory becomes `DeleteUser`'s result |
| App.Timeclock.ResetData | src/App.js:651-665 | the directory becomes `ResetData`'s result |
| App.Timeclock.ClockIn | src/App.js:595-614 | the directory becomes the clock-in of the signed-in user |
| App.Timeclock.ClockOut | src/App.js:616-639 | the directory becomes the clock-out of the override or the signed-in user |
| App.Timeclock.SaveEditPunch | src/App.js:1185-1231 | the directory becomes `SaveEditPunch`'s result, or stays the same on refusal with the reason reported |
| App.Timeclock.DeletePunch | src/App.js:1233-1243 | the directory becomes `DeletePunch`'s result, computed by copying and splicing |
| App.Timeclock.AddPunch | src/App.js:1245-1296 | the directory becomes `AddPunch`'s result, or stays the same on refusal with the reason reported |
| App.PushEntryRows | src/App.js:1311-1327 | the entry loop pushes exactly the rows of the row specification for that user, after the rows already there |
| App.CollectWeeklyRows | src/App.js:1301-1328 | the header push and the user loop produce exactly the export's rows |
| App.Timeclock.GenerateWeeklyCsv | src/App.js:1300-1332 | the nested push loops produce the weekly CSV text of the row specification, and that text decodes into exactly those rows |

## Left out

- `api/users.js`, `api/users/get.js`, `api/users/set.js`: thin wrappers around a key-value store. They are foreign calls and are not part of this model.
- Persistence by `fetch` (src/App.js:418-458). What was loaded is a `Load` parameter: the fetched array, or none when the request fails or the data is not an array. The fire-and-forget save is not modelled.
- The one-second ticker and the live-minute displays: the clock is the `now` parameter.
- Host-locale formatting (`toLocaleString`, `toLocaleDateString`, `toLocaleTimeString`): these are the opaque functions of `Locale`. `FormatUsDateTime` is only an en-US reference used for the parse round trip, and it puts an ASCII space before AM/PM; a host that prints U+202F there produces text the round trip does not cover.
- `startOfCurrentWeek`, which depends on the time zone: `weekStart` is a parameter. The week end is `weekStart + 7 * 86 400 000` ms, so a week that crosses a daylight-saving change is one hour off from `setDate(+7)`.
- The `Date` constructor from components and its invalid-date check (src/App.js:34-35): the mapping is a `toInstant` parameter, and every parsed component set is taken as a valid date.
- `TimeText.ParseLocalDateTime`: a non-string argument (the `typeof` check) cannot occur in the typed model.
- `Records.Login`: the page switch (`setCurrentPage`) and the alerts are not modelled; the alert case is the returned reason.
- Settings kept in `localStorage`: nothing in the core reads them.
- The `Blob` download, the file name, and `alert`/`confirm`/`prompt`: confirmations are `bool` parameters, prompt answers `Option<string>` (none when dismissed).
- The `Date.now()` suffix of new ids: a `nat` parameter.
- Resetting the edit dialogs and form fields (`setEditingUser(null)`, `setNewUserName("")` and the like): UI state only.
- JSX, styling, and the sorting used only for display.
- `Text.ToLower` and `Text.ToUpper`: only ASCII letters are case-mapped, not full Unicode.
- `Directory.ValidForm`: the passcode length is counted in code points, not UTF-16 code units.
- `Punches.ReplaceAt`: an index at or past the end is treated as no change. In the app it would grow a sparse array, and that can only happen for a second record sharing the id.
- Numbers are unbounded integers: floating-point precision beyond 2^53 and `NaN` durations read from storage are not modelled.
- `Durations.SumMinutes`: stored durations are integers; a fractional value from edited storage is not modelled.
