/** Punch editing (src/App.js:229-235, 1185-1296): the history page finds
    an entry's position with `findIndex`, and the three handlers rewrite the
    entry list of every record with the user's id at that position.  The
    modal fields and prompt answers are parameters; `toInstant` stands for
    `new Date(year, month - 1, day, hour, minute)` in the host time zone. */
module Punches {
  import opened Wrappers
  import opened Text
  import opened TimeText
  import opened Records

  /** The match the history page uses to locate a displayed entry: both
      `raw` instants present and equal, and equal durations. */
  predicate SamePunch(e: Entry, raw: Option<int>, duration: Option<int>) {
    e.raw.Some? && raw.Some? && e.raw.value == raw.value && e.duration == duration
  }

  /** `userEntries.findIndex(...)`: the first matching position, or -1. */
  function FindPunchIndex(entries: seq<Entry>, raw: Option<int>, duration: Option<int>): (i: int)
    ensures -1 <= i < |entries|
    ensures i >= 0 ==> SamePunch(entries[i], raw, duration) && forall j :: 0 <= j < i ==> !SamePunch(entries[j], raw, duration)
    ensures i == -1 <==> forall j :: 0 <= j < |entries| ==> !SamePunch(entries[j], raw, duration)
  {
    if |entries| == 0 then -1
    else if SamePunch(entries[0], raw, duration) then 0
    else
      var k := FindPunchIndex(entries[1..], raw, duration);
      if k == -1 then -1 else k + 1
  }

  /** A displayed entry, one that has a `raw` instant, is always found in
      the list it was taken from, at a position holding the same punch. */
  lemma FindPunchIndexOfListed(entries: seq<Entry>, k: nat)
    requires k < |entries| && entries[k].raw.Some?
    ensures var i := FindPunchIndex(entries, entries[k].raw, entries[k].duration);
            0 <= i <= k && entries[i].raw == entries[k].raw && entries[i].duration == entries[k].duration
  {
    assert SamePunch(entries[k], entries[k].raw, entries[k].duration);
  }

  /** The edit modal's target, `editingPunch`. */
  datatype PunchRef = PunchRef(userId: string, entryIndex: int)

  /** Why a punch handler changes nothing. */
  datatype PunchError =
    | NotEditing        // `editingPunch` is null
    | NoSuchUser        // `getUserById` finds nobody
    | InvalidClockIn
    | InvalidClockOut
    | InvalidDuration   // "Duration must be positive and Clock Out must be valid"
    | NoUserSelected
    | Cancelled         // a prompt answered with nothing or dismissed
    | NotAfterClockIn   // "Clock Out must be after Clock In"

  /** The validated result of the edit modal: the start instant and the
      duration in minutes. */
  datatype Edit = Edit(start: int, minutes: int)

  /** The validation of `saveEditPunch`, on the parsed fields: the clock-in
      must parse; a clock-out that is not blank must parse and then fixes the
      duration as the rounded difference; otherwise the typed duration is
      used; the duration must be a positive number. */
  function CheckEdit(inDate: Option<DateTime>, outBlank: bool, outDate: Option<DateTime>,
                     typed: Option<int>, toInstant: DateTime -> int): (r: Result<Edit, PunchError>)
    ensures r.Err? ==> r.error == InvalidClockIn || r.error == InvalidClockOut || r.error == InvalidDuration
    ensures r == Err(InvalidClockIn) <==> inDate.None?
    ensures r == Err(InvalidClockOut) <==> inDate.Some? && !outBlank && outDate.None?
    ensures r.Ok? ==> r.value.minutes > 0 && inDate.Some? && r.value.start == toInstant(inDate.value)
    ensures r.Ok? && !outBlank ==>
              outDate.Some? && r.value.minutes == RoundMinutes(toInstant(outDate.value) - r.value.start)
    ensures r.Ok? && outBlank ==> typed == Some(r.value.minutes)
    ensures inDate.Some? && !outBlank && outDate.Some? ==>
              (r.Ok? <==> RoundMinutes(toInstant(outDate.value) - toInstant(inDate.value)) > 0)
    ensures inDate.Some? && outBlank ==> (r.Ok? <==> typed.Some? && typed.value > 0)
  {
    match inDate
    case None => Err(InvalidClockIn)
    case Some(d) =>
      var start := toInstant(d);
      if !outBlank then
        match outDate
        case None => Err(InvalidClockOut)
        case Some(o) =>
          var minutes := RoundMinutes(toInstant(o) - start);
          if minutes <= 0 then Err(InvalidDuration) else Ok(Edit(start, minutes))
      else
        match typed
        case None => Err(InvalidDuration)
        case Some(minutes) => if minutes <= 0 then Err(InvalidDuration) else Ok(Edit(start, minutes))
  }

  /** The modal's three text fields read as `saveEditPunch` reads them. */
  function ReadEdit(inText: string, outText: string, durationText: string, toInstant: DateTime -> int): Result<Edit, PunchError> {
    CheckEdit(ParseLocalDateTime(inText), Trim(outText) == "", ParseLocalDateTime(outText), ParseInt(durationText), toInstant)
  }

  /** `newEntries[entryIndex] = {...newEntries[entryIndex], raw, time,
      durationMinutes}` for a position inside the list; any other position
      leaves the list as it was. */
  function ReplaceAt(entries: seq<Entry>, index: int, edit: Edit, loc: Locale): (r: seq<Entry>)
    ensures |r| == |entries|
    ensures forall k :: 0 <= k < |entries| && k != index ==> r[k] == entries[k]
    ensures 0 <= index < |entries| ==>
              r[index] == Entry(entries[index].kind, loc.time(edit.start), Some(edit.start), Some(edit.minutes))
  {
    if 0 <= index < |entries| then
      entries[index := entries[index].(raw := Some(edit.start), time := loc.time(edit.start), duration := Some(edit.minutes))]
    else entries
  }

  function ApplyEdit(index: int, edit: Edit, loc: Locale): User -> User {
    (u: User) => u.(entries := ReplaceAt(u.entries, index, edit, loc))
  }

  /** `saveEditPunch`: nothing happens without an open edit, a known user or
      valid fields; otherwise the entry at the edited position is rewritten in
      every record with the user's id. */
  function SaveEditPunch(users: seq<User>, editing: Option<PunchRef>, inText: string, outText: string,
                         durationText: string, toInstant: DateTime -> int, loc: Locale): Result<seq<User>, PunchError>
  {
    match editing
    case None => Err(NotEditing)
    case Some(p) =>
      if FindUser(users, p.userId).None? then Err(NoSuchUser)
      else
        match ReadEdit(inText, outText, durationText, toInstant)
        case Err(e) => Err(e)
        case Ok(edit) => Ok(UpdateWhere(users, p.userId, ApplyEdit(p.entryIndex, edit, loc)))
  }

  /** The outcome of `saveEditPunch`: no open edit, then an unknown user, then
      the field checks, each reported as its own reason; a success keeps the
      number of users. */
  lemma SaveEditPunchOutcome(users: seq<User>, editing: Option<PunchRef>, inText: string, outText: string,
                             durationText: string, toInstant: DateTime -> int, loc: Locale)
    ensures var r := SaveEditPunch(users, editing, inText, outText, durationText, toInstant, loc);
            (editing.None? ==> r == Err(NotEditing))
            && (editing.Some? && FindUser(users, editing.value.userId).None? ==> r == Err(NoSuchUser))
            && (editing.Some? && FindUser(users, editing.value.userId).Some? ==>
                  match ReadEdit(inText, outText, durationText, toInstant)
                  case Err(e) => r == Err(e)
                  case Ok(edit) => r.Ok? && |r.value| == |users|)
  {
  }

  /** A successful edit touches only the edited position of the edited
      user's records: that entry keeps its kind and takes the new start,
      time text and duration; every other entry and every other user is kept. */
  lemma SaveEditPunchEffect(users: seq<User>, p: PunchRef, inText: string, outText: string,
                            durationText: string, toInstant: DateTime -> int, loc: Locale, edit: Edit, i: nat)
    requires i < |users|
    requires FindUser(users, p.userId).Some?
    requires ReadEdit(inText, outText, durationText, toInstant) == Ok(edit)
    ensures var next := SaveEditPunch(users, Some(p), inText, outText, durationText, toInstant, loc);
            next.Ok? && |next.value| == |users|
            && var after := next.value[i];
               if users[i].id != p.userId then after == users[i]
               else
                 after.id == users[i].id && after.name == users[i].name && after.passcode == users[i].passcode
                 && after.session == users[i].session
                 && |after.entries| == |users[i].entries|
                 && (forall k :: 0 <= k < |after.entries| && k != p.entryIndex ==> after.entries[k] == users[i].entries[k])
                 && (0 <= p.entryIndex < |after.entries| ==>
                       after.entries[p.entryIndex]
                         == Entry(users[i].entries[p.entryIndex].kind, loc.time(edit.start), Some(edit.start), Some(edit.minutes)))
  {
  }

  /** An edit aimed at position -1 (what `findIndex` reports for a punch it
      cannot find) is accepted but changes no entry. */
  lemma EditAtMinusOneChangesNothing(entries: seq<Entry>, edit: Edit, loc: Locale)
    ensures ReplaceAt(entries, -1, edit, loc) == entries
  {
  }

  /** `newEntries.splice(entryIndex, 1)`: a negative start counts back from
      the end (clamped at 0), a start past the end removes nothing. */
  function Splice1(entries: seq<Entry>, start: int): (r: seq<Entry>)
    ensures var k := SpliceStart(|entries|, start);
            k < |entries| ==>
              |r| == |entries| - 1
              && (forall i :: 0 <= i < k ==> r[i] == entries[i])
              && (forall i :: k <= i < |r| ==> r[i] == entries[i + 1])
              && multiset(r) + multiset{entries[k]} == multiset(entries)
    ensures SpliceStart(|entries|, start) == |entries| ==> r == entries
  {
    var k := SpliceStart(|entries|, start);
    if k < |entries| then
      assert entries == entries[..k] + [entries[k]] + entries[k + 1..];
      entries[..k] + entries[k + 1..]
    else entries
  }

  /** The position `splice` actually starts at. */
  function SpliceStart(length: nat, start: int): (k: nat)
    ensures k <= length
    ensures 0 <= start <= length ==> k == start
    ensures start > length ==> k == length
    ensures start < 0 ==> k == if length + start < 0 then 0 else length + start
  {
    if start < 0 then (if length + start < 0 then 0 else length + start)
    else if start > length then length
    else start
  }

  /** Deleting at a position inside the list removes exactly that entry: one
      entry fewer, earlier ones in place, later ones shifted down by one. */
  lemma DeleteAtRemovesOne(entries: seq<Entry>, i: nat)
    requires i < |entries|
    ensures |Splice1(entries, i)| == |entries| - 1
    ensures forall k :: 0 <= k < i ==> Splice1(entries, i)[k] == entries[k]
    ensures forall k :: i <= k < |entries| - 1 ==> Splice1(entries, i)[k] == entries[k + 1]
    ensures multiset(Splice1(entries, i)) + multiset{entries[i]} == multiset(entries)
  {
    assert entries == entries[..i] + [entries[i]] + entries[i + 1..];
  }

  /** `splice(-1, 1)`, which the delete button sends when `findIndex`
      reports -1, removes the last entry rather than nothing. */
  lemma DeleteAtMinusOneRemovesLast(entries: seq<Entry>)
    requires |entries| > 0
    ensures Splice1(entries, -1) == entries[..|entries| - 1]
  {
    assert entries[|entries|..] == [];
  }

  function RemoveAt(index: int): User -> User {
    (u: User) => u.(entries := Splice1(u.entries, index))
  }

  /** `deletePunch`: without confirmation nothing changes; otherwise every
      record with the id loses the entry at the position, other users kept.
      The user need not exist. */
  function DeletePunch(users: seq<User>, userId: string, entryIndex: int, confirmed: bool): (r: seq<User>)
    ensures |r| == |users|
    ensures !confirmed ==> r == users
    ensures forall i :: 0 <= i < |users| && (users[i].id != userId || !confirmed) ==> r[i] == users[i]
    ensures confirmed ==> forall i :: 0 <= i < |users| && users[i].id == userId ==>
              r[i] == users[i].(entries := Splice1(users[i].entries, entryIndex))
  {
    if !confirmed then users else UpdateWhere(users, userId, RemoveAt(entryIndex))
  }

  /** The entry `addPunchForUser` appends: a clock-out typed entry at the
      clock-in instant carrying the whole duration. */
  function AddedEntry(edit: Edit, loc: Locale): Entry {
    Entry(ClockOutMark, loc.time(edit.start), Some(edit.start), Some(edit.minutes))
  }

  /** The validation of `addPunchForUser`, in the source's order, on the
      prompt answers and their parses: a selected user, a non-empty clock-in
      answer that parses, a non-empty clock-out answer that parses, and a
      rounded difference above zero. */
  function CheckAddedPunch(userId: string, inAnswer: Option<string>, inDate: Option<DateTime>,
                           outAnswer: Option<string>, outDate: Option<DateTime>,
                           toInstant: DateTime -> int): (r: Result<Edit, PunchError>)
    ensures r.Ok? <==>
              userId != "" && inAnswer.Some? && inAnswer.value != "" && inDate.Some?
              && outAnswer.Some? && outAnswer.value != "" && outDate.Some?
              && RoundMinutes(toInstant(outDate.value) - toInstant(inDate.value)) > 0
    ensures r.Ok? ==>
              r.value.start == toInstant(inDate.value)
              && r.value.minutes == RoundMinutes(toInstant(outDate.value) - r.value.start)
    ensures r == Err(NoUserSelected) <==> userId == ""
    ensures r == Err(InvalidClockIn) <==> userId != "" && inAnswer.Some? && inAnswer.value != "" && inDate.None?
  {
    if userId == "" then Err(NoUserSelected)
    else if inAnswer.None? || inAnswer.value == "" then Err(Cancelled)
    else
      match inDate
      case None => Err(InvalidClockIn)
      case Some(i) =>
        if outAnswer.None? || outAnswer.value == "" then Err(Cancelled)
        else
          match outDate
          case None => Err(InvalidClockOut)
          case Some(o) =>
            var start := toInstant(i);
            var minutes := RoundMinutes(toInstant(o) - start);
            if minutes <= 0 then Err(NotAfterClockIn) else Ok(Edit(start, minutes))
  }

  /** The remaining refusals of `addPunchForUser`, each in the order the
      source checks them: a cancelled or empty prompt, an unparsable clock-out
      answer, and a clock-out that does not round to after the clock-in. */
  lemma CheckAddedPunchErrors(userId: string, inAnswer: Option<string>, inDate: Option<DateTime>,
                              outAnswer: Option<string>, outDate: Option<DateTime>,
                              toInstant: DateTime -> int)
    ensures var r := CheckAddedPunch(userId, inAnswer, inDate, outAnswer, outDate, toInstant);
            (r == Err(Cancelled) <==>
               userId != ""
               && ((inAnswer.None? || inAnswer.value == "")
                   || (inDate.Some? && (outAnswer.None? || outAnswer.value == ""))))
            && (r == Err(InvalidClockOut) <==>
                  userId != "" && inAnswer.Some? && inAnswer.value != "" && inDate.Some?
                  && outAnswer.Some? && outAnswer.value != "" && outDate.None?)
            && (r == Err(NotAfterClockIn) <==>
                  userId != "" && inAnswer.Some? && inAnswer.value != "" && inDate.Some?
                  && outAnswer.Some? && outAnswer.value != "" && outDate.Some?
                  && RoundMinutes(toInstant(outDate.value) - toInstant(inDate.value)) <= 0)
  {
  }

  /** The answers parsed as `addPunchForUser` parses them (a missing answer parses to nothing). */
  function ReadAddedPunch(userId: string, inAnswer: Option<string>, outAnswer: Option<string>,
                          toInstant: DateTime -> int): Result<Edit, PunchError> {
    CheckAddedPunch(userId, inAnswer, ParseAnswer(inAnswer), outAnswer, ParseAnswer(outAnswer), toInstant)
  }

  function ParseAnswer(answer: Option<string>): Option<DateTime> {
    if answer.None? then None else ParseLocalDateTime(answer.value)
  }

  function AppendEntry(e: Entry): User -> User {
    (u: User) => u.(entries := u.entries + [e])
  }

  /** `addPunchForUser`: on valid answers every record with the id gains the
      new entry at the end; on any failure nothing changes. */
  function AddPunch(users: seq<User>, userId: string, inAnswer: Option<string>, outAnswer: Option<string>,
                    toInstant: DateTime -> int, loc: Locale): (r: Result<seq<User>, PunchError>)
    ensures r.Ok? <==> ReadAddedPunch(userId, inAnswer, outAnswer, toInstant).Ok?
    ensures r.Err? ==> r.error == ReadAddedPunch(userId, inAnswer, outAnswer, toInstant).error
    ensures r.Ok? ==>
              var e := AddedEntry(ReadAddedPunch(userId, inAnswer, outAnswer, toInstant).value, loc);
              |r.value| == |users|
              && forall i :: 0 <= i < |users| ==>
                   r.value[i] == if users[i].id == userId then users[i].(entries := users[i].entries + [e]) else users[i]
  {
    match ReadAddedPunch(userId, inAnswer, outAnswer, toInstant)
    case Err(e) => Err(e)
    case Ok(edit) => Ok(UpdateWhere(users, userId, AppendEntry(AddedEntry(edit, loc))))
  }

  /** An added punch always carries a positive duration, so it always counts
      toward the totals. */
  lemma AddedPunchCounts(userId: string, inAnswer: Option<string>, outAnswer: Option<string>,
                         toInstant: DateTime -> int, loc: Locale)
    requires ReadAddedPunch(userId, inAnswer, outAnswer, toInstant).Ok?
    ensures var e := AddedEntry(ReadAddedPunch(userId, inAnswer, outAnswer, toInstant).value, loc);
            HasDuration(e) && Minutes(e) > 0
  {
  }

  /** The clock text `M/D/Y H:M suffix` assembled from its fields. */
  function StampText(ms: string, ds: string, ys: string, hs: string, mins: string, suffix: string): string {
    (ms + "/" + ds + "/" + ys) + " " + (hs + ":" + mins) + " " + suffix
  }

  /** Digit fields and a suffix the way a person types them parse to exactly
      those numbers, the hour moved to the 24-hour clock. */
  lemma StampTextParses(ms: string, ds: string, ys: string, hs: string, mins: string, suffix: string)
    requires |ms| >= 1 && |ds| >= 1 && |ys| >= 1 && |hs| >= 1 && |mins| >= 1
    requires AllDigits(ms) && AllDigits(ds) && AllDigits(ys) && AllDigits(hs) && AllDigits(mins)
    requires DigitsValue(ms) != 0 && DigitsValue(ds) != 0 && DigitsValue(ys) != 0
    requires |suffix| >= 1 && ' ' !in suffix && !IsWhitespace(suffix[|suffix| - 1])
    ensures ParseLocalDateTime(StampText(ms, ds, ys, hs, mins, suffix))
         == Some(DateTime(DigitsValue(ys), DigitsValue(ms), DigitsValue(ds),
                          To24Hour(DigitsValue(hs), suffix), DigitsValue(mins)))
  {
    ParseLocalDateTimeAccepts(ms, ds, ys, hs, mins, suffix);
  }

  /** The fields of the sample day, 06/01/2024, and the two sample hours. */
  predicate SampleFields(ms: string, ds: string, ys: string, nine: string, five: string, zero: string) {
    ms == "06" && ds == "01" && ys == "2024" && nine == "09" && five == "05" && zero == "00"
  }

  /** The digit values of the sample fields. */
  lemma {:induction false} SampleDigits(ms: string, ds: string, ys: string, nine: string, five: string, zero: string)
    requires SampleFields(ms, ds, ys, nine, five, zero)
    ensures |ms| >= 1 && |ds| >= 1 && |ys| >= 1 && |nine| >= 1 && |five| >= 1 && |zero| >= 1
    ensures AllDigits(ms) && AllDigits(ds) && AllDigits(ys) && AllDigits(nine) && AllDigits(five) && AllDigits(zero)
    ensures DigitsValue(ms) == 6 && DigitsValue(ds) == 1 && DigitsValue(ys) == 2024
    ensures DigitsValue(nine) == 9 && DigitsValue(five) == 5 && DigitsValue(zero) == 0
  {
    TwoDigitValue(ms);
    TwoDigitValue(ds);
    FourDigitValue(ys);
    TwoDigitValue(nine);
    TwoDigitValue(five);
    TwoDigitValue(zero);
  }

  lemma TwoDigitValue(s: string)
    requires |s| == 2 && IsDigit(s[0]) && IsDigit(s[1])
    ensures AllDigits(s) && DigitsValue(s) == ((s[0] as int) - ('0' as int)) * 10 + ((s[1] as int) - ('0' as int))
  {
    assert s[..1][..0] == [] && s[..1][0] == s[0];
    assert DigitsValue(s[..1]) == (s[0] as int) - ('0' as int);
    assert s[..|s| - 1] == s[..1];
  }

  lemma FourDigitValue(s: string)
    requires |s| == 4 && IsDigit(s[0]) && IsDigit(s[1]) && IsDigit(s[2]) && IsDigit(s[3])
    ensures AllDigits(s)
    ensures DigitsValue(s) == ((s[0] as int) - ('0' as int)) * 1000 + ((s[1] as int) - ('0' as int)) * 100
                              + ((s[2] as int) - ('0' as int)) * 10 + ((s[3] as int) - ('0' as int))
  {
    TwoDigitValue(s[..2]);
    assert s[..3][..2] == s[..2] && s[..3][2] == s[2] && s[..|s| - 1] == s[..3];
    assert DigitsValue(s[..3]) == DigitsValue(s[..2]) * 10 + ((s[2] as int) - ('0' as int));
  }

  /** Fields with the sample's digit values give the sample's instants. */
  lemma StampAt(ms: string, ds: string, ys: string, hs: string, mins: string, suffix: string, hour: int)
    requires |ms| >= 1 && |ds| >= 1 && |ys| >= 1 && |hs| >= 1 && |mins| >= 1
    requires AllDigits(ms) && AllDigits(ds) && AllDigits(ys) && AllDigits(hs) && AllDigits(mins)
    requires DigitsValue(ms) == 6 && DigitsValue(ds) == 1 && DigitsValue(ys) == 2024 && DigitsValue(mins) == 0
    requires suffix == "AM" || suffix == "PM"
    requires hour == To24Hour(DigitsValue(hs), suffix)
    ensures ParseLocalDateTime(StampText(ms, ds, ys, hs, mins, suffix)) == Some(DateTime(2024, 6, 1, hour, 0))
  {
    StampTextParses(ms, ds, ys, hs, mins, suffix);
  }

  /** The sample clock-in of the punch dialogs, `06/01/2024 09:00 AM`. */
  lemma MorningSampleParses(ms: string, ds: string, ys: string, nine: string, five: string, zero: string)
    requires SampleFields(ms, ds, ys, nine, five, zero)
    ensures ParseLocalDateTime(StampText(ms, ds, ys, nine, zero, "AM")) == Some(DateTime(2024, 6, 1, 9, 0))
  {
    SampleDigits(ms, ds, ys, nine, five, zero);
    assert ToUpper("AM") == "AM";
    StampAt(ms, ds, ys, nine, zero, "AM", 9);
  }

  /** The sample clock-out of the punch dialogs, `06/01/2024 05:00 PM`. */
  lemma EveningSampleParses(ms: string, ds: string, ys: string, nine: string, five: string, zero: string)
    requires SampleFields(ms, ds, ys, nine, five, zero)
    ensures ParseLocalDateTime(StampText(ms, ds, ys, five, zero, "PM")) == Some(DateTime(2024, 6, 1, 17, 0))
  {
    SampleDigits(ms, ds, ys, nine, five, zero);
    assert ToUpper("PM") == "PM";
    StampAt(ms, ds, ys, five, zero, "PM", 17);
  }

  /** A punch added from the sample clock-in to the sample clock-out (answers
      that parse as `06/01/2024 09:00 AM` and `06/01/2024 05:00 PM` do, by
      `MorningSampleParses` and `EveningSampleParses`) lasts 480 minutes,
      when the host clock has no offset change between the two. */
  lemma AddPunchSample(userId: string, inText: string, outText: string, toInstant: DateTime -> int)
    requires userId != ""
    requires ParseLocalDateTime(inText) == Some(DateTime(2024, 6, 1, 9, 0))
    requires ParseLocalDateTime(outText) == Some(DateTime(2024, 6, 1, 17, 0))
    requires toInstant(DateTime(2024, 6, 1, 17, 0)) == toInstant(DateTime(2024, 6, 1, 9, 0)) + 480 * MsPerMinute
    ensures ReadAddedPunch(userId, Some(inText), Some(outText), toInstant)
         == Ok(Edit(toInstant(DateTime(2024, 6, 1, 9, 0)), 480))
  {
    RoundWholeMinutes(toInstant(DateTime(2024, 6, 1, 9, 0)), toInstant(DateTime(2024, 6, 1, 17, 0)), 480);
    AddedFromParses(userId, inText, outText, DateTime(2024, 6, 1, 9, 0), DateTime(2024, 6, 1, 17, 0), toInstant, 480);
  }

  /** Two answers that parse to instants `minutes` apart once rounded give a
      punch of that length. */
  lemma AddedFromParses(userId: string, inText: string, outText: string, inDate: DateTime, outDate: DateTime,
                        toInstant: DateTime -> int, minutes: int)
    requires userId != "" && minutes > 0
    requires ParseLocalDateTime(inText) == Some(inDate) && ParseLocalDateTime(outText) == Some(outDate)
    requires RoundMinutes(toInstant(outDate) - toInstant(inDate)) == minutes
    ensures ReadAddedPunch(userId, Some(inText), Some(outText), toInstant) == Ok(Edit(toInstant(inDate), minutes))
  {
    ReadAddedOfParsed(userId, inText, outText, inDate, outDate, toInstant);
    CheckAddedOk(userId, inText, outText, inDate, outDate, toInstant, minutes);
  }

  /** Reading the answers is checking their parses. */
  lemma ReadAddedOfParsed(userId: string, inText: string, outText: string, inDate: DateTime, outDate: DateTime,
                          toInstant: DateTime -> int)
    requires ParseLocalDateTime(inText) == Some(inDate) && ParseLocalDateTime(outText) == Some(outDate)
    ensures inText != "" && outText != ""
    ensures ReadAddedPunch(userId, Some(inText), Some(outText), toInstant)
         == CheckAddedPunch(userId, Some(inText), Some(inDate), Some(outText), Some(outDate), toInstant)
  {
  }

  /** Two instants a whole number of minutes apart round to exactly that number. */
  lemma RoundWholeMinutes(start: int, end: int, minutes: int)
    requires end == start + minutes * MsPerMinute
    ensures RoundMinutes(end - start) == minutes
  {
    RoundMinutesUnique(minutes * MsPerMinute, minutes);
  }

  /** The checks pass on non-empty answers that parsed to instants a positive
      number of minutes apart. */
  lemma CheckAddedOk(userId: string, inText: string, outText: string, inDate: DateTime, outDate: DateTime,
                     toInstant: DateTime -> int, minutes: int)
    requires userId != "" && inText != "" && outText != "" && minutes > 0
    requires RoundMinutes(toInstant(outDate) - toInstant(inDate)) == minutes
    ensures CheckAddedPunch(userId, Some(inText), Some(inDate), Some(outText), Some(outDate), toInstant)
         == Ok(Edit(toInstant(inDate), minutes))
  {
  }

  /** An edit starting 06/01/2024 09:00 AM with no clock-out and a typed
      duration of 90 keeps exactly that start and that duration. */
  lemma EditPunchSample(ms: string, ds: string, ys: string, nine: string, five: string, zero: string,
                        durationText: string, toInstant: DateTime -> int)
    requires SampleFields(ms, ds, ys, nine, five, zero) && durationText == "90"
    ensures ReadEdit(StampText(ms, ds, ys, nine, zero, "AM"), "", durationText, toInstant)
         == Ok(Edit(toInstant(DateTime(2024, 6, 1, 9, 0)), 90))
  {
    MorningSampleParses(ms, ds, ys, nine, five, zero);
    NinetyParses(durationText);
    assert Trim("") == "";
  }
  lemma NinetyParses(durationText: string)
    requires durationText == "90"
    ensures ParseInt(durationText) == Some(90)
  {
    TwoDigitValue(durationText);
    ParseDigits(durationText);
  }
}
