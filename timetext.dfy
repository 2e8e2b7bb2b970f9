/** Instants, minute rounding and the two text helpers of the timeclock:
    `parseLocalDateTime` (src/App.js:20-37) and `formatHoursMinutes`
    (src/App.js:46-51). Instants are integer milliseconds. */
module TimeText {
  import opened Wrappers
  import opened Text

  const MsPerMinute: int := 60000
  const MsPerDay: int := 86400000
  /** The CSV window's length; the source adds seven calendar days, which
      differs from this by an hour across a daylight-saving change. */
  const WeekMs: int := 7 * MsPerDay

  /** `Math.round(ms / 60000)`: the whole number of minutes nearest to `ms`
      milliseconds, a half minute rounding up. */
  function RoundMinutes(ms: int): (r: int)
    ensures r * MsPerMinute - 30000 <= ms < r * MsPerMinute + 30000
  {
    (ms + 30000) / MsPerMinute
  }

  /** Any whole number of minutes within half a minute of `ms` is the rounded value. */
  lemma {:induction false} RoundMinutesUnique(ms: int, k: int)
    requires k * MsPerMinute - 30000 <= ms < k * MsPerMinute + 30000
    ensures RoundMinutes(ms) == k
  {
    var r := RoundMinutes(ms);
    assert (k - r) * MsPerMinute < 60000 && (r - k) * MsPerMinute < 60000;
  }

  /** The components `parseLocalDateTime` hands to `new Date(year, month - 1,
      day, hour, minute)`; month and day are as typed (1-based) and not
      range-checked, the hour is on the 24-hour clock. */
  datatype DateTime = DateTime(year: int, month: int, day: int, hour: int, minute: int)

  /** A parsed number that JavaScript counts as true: present (not NaN) and non-zero. */
  predicate Truthy(n: Option<int>) {
    n.Some? && n.value != 0
  }

  /** The AM/PM adjustment: `PM` adds 12 unless the hour is 12, `12 AM`
      becomes 0, any other suffix leaves the hour alone. */
  function To24Hour(hour: int, suffix: string): int {
    var upper := ToUpper(suffix);
    if upper == "PM" && hour != 12 then hour + 12
    else if upper == "AM" && hour == 12 then 0
    else hour
  }

  /** `parseLocalDateTime`: null (None) for anything that is not three
      space-separated parts `M/D/Y H:M suffix` with non-zero month, day
      and year and numeric hour and minute. */
  function ParseLocalDateTime(str: string): Option<DateTime> {
    if str == "" then None else ParseParts(Split(Trim(str), ' '))
  }

  /** What a successful parse implies about its input: the trimmed text has
      exactly three space-separated parts, month, day and year are non-zero,
      and the time part has an hour and a minute field that both read as
      numbers. */
  lemma ParseLocalDateTimeRejects(str: string)
    ensures var r := ParseLocalDateTime(str);
            r.Some? ==>
              var parts := Split(Trim(str), ' ');
              |parts| == 3
              && r.value.month != 0 && r.value.day != 0 && r.value.year != 0
              && var time := Split(parts[1], ':');
                 |time| >= 2 && time[0] != "" && time[1] != ""
                 && ParseInt(time[0]).Some? && ParseInt(time[1]).Some?
  {
  }

  /** The part-count check: exactly three space-separated parts. */
  function ParseParts(parts: seq<string>): (r: Option<DateTime>)
    ensures r.Some? ==> |parts| == 3
  {
    if |parts| != 3 then None else ParseFields(parts[0], parts[1], parts[2])
  }

  /** The field checks of `parseLocalDateTime` once the input has been cut
      into its date part, time part and AM/PM suffix. */
  function ParseFields(datePart: string, timePart: string, suffix: string): (r: Option<DateTime>)
    ensures r.Some? ==> r.value.month != 0 && r.value.day != 0 && r.value.year != 0
  {
    var dateFields := Split(datePart, '/');
    var month := ParseInt(dateFields[0]);
    var day := if |dateFields| > 1 then ParseInt(dateFields[1]) else None;
    var year := if |dateFields| > 2 then ParseInt(dateFields[2]) else None;
    var timeFields := Split(timePart, ':');
    var hourStr := timeFields[0];
    var minuteStr := if |timeFields| > 1 then timeFields[1] else "";
    if !Truthy(month) || !Truthy(day) || !Truthy(year) || hourStr == "" || minuteStr == "" then None
    else
      match (ParseInt(hourStr), ParseInt(minuteStr))
      case (Some(hour), Some(minute)) =>
        Some(DateTime(year.value, month.value, day.value, To24Hour(hour, suffix), minute))
      case _ => None
  }

  /** A digit string reads back as its value. */
  lemma {:induction false} ParseDigits(d: string)
    requires |d| >= 1 && AllDigits(d)
    ensures ParseInt(d) == Some(DigitsValue(d))
  {
    DigitsThenStop(d, []);
    assert d + [] == d;
  }

  /** The accepted shape: digit fields `M/D/Y H:M` and a suffix without
      spaces parse to exactly those numbers, with the hour moved to the
      24-hour clock by the suffix, whenever month, day and year are non-zero. */
  lemma {:induction false} ParseLocalDateTimeAccepts(ms: string, ds: string, ys: string, hs: string, mins: string, suffix: string)
    requires |ms| >= 1 && |ds| >= 1 && |ys| >= 1 && |hs| >= 1 && |mins| >= 1
    requires AllDigits(ms) && AllDigits(ds) && AllDigits(ys) && AllDigits(hs) && AllDigits(mins)
    requires DigitsValue(ms) != 0 && DigitsValue(ds) != 0 && DigitsValue(ys) != 0
    requires |suffix| >= 1 && ' ' !in suffix && !IsWhitespace(suffix[|suffix| - 1])
    ensures ParseLocalDateTime((ms + "/" + ds + "/" + ys) + " " + (hs + ":" + mins) + " " + suffix)
         == Some(DateTime(DigitsValue(ys), DigitsValue(ms), DigitsValue(ds),
                          To24Hour(DigitsValue(hs), suffix), DigitsValue(mins)))
  {
    var datePart := ms + "/" + ds + "/" + ys;
    var timePart := hs + ":" + mins;
    NoSpaceInFields(ms, ds, ys, hs, mins);
    ParseFieldsAccepts(ms, ds, ys, hs, mins, suffix);
    ParseFromParts(datePart, timePart, suffix);
  }

  /** Once the text is three clean space-separated parts, the parse is the field checks. */
  lemma {:induction false} ParseFromParts(datePart: string, timePart: string, suffix: string)
    requires |datePart| >= 1 && !IsWhitespace(datePart[0])
    requires |suffix| >= 1 && !IsWhitespace(suffix[|suffix| - 1])
    requires ' ' !in datePart && ' ' !in timePart && ' ' !in suffix
    ensures ParseLocalDateTime(datePart + " " + timePart + " " + suffix) == ParseFields(datePart, timePart, suffix)
  {
    SplitThreeParts(datePart, timePart, suffix);
  }

  lemma {:induction false} ParseFieldsAccepts(ms: string, ds: string, ys: string, hs: string, mins: string, suffix: string)
    requires |ms| >= 1 && |ds| >= 1 && |ys| >= 1 && |hs| >= 1 && |mins| >= 1
    requires AllDigits(ms) && AllDigits(ds) && AllDigits(ys) && AllDigits(hs) && AllDigits(mins)
    requires DigitsValue(ms) != 0 && DigitsValue(ds) != 0 && DigitsValue(ys) != 0
    ensures ParseFields(ms + "/" + ds + "/" + ys, hs + ":" + mins, suffix)
         == Some(DateTime(DigitsValue(ys), DigitsValue(ms), DigitsValue(ds),
                          To24Hour(DigitsValue(hs), suffix), DigitsValue(mins)))
  {
    DateFieldsOf(ms, ds, ys);
    TimeFieldsOf(hs, mins);
    ParseDigits(ms); ParseDigits(ds); ParseDigits(ys); ParseDigits(hs); ParseDigits(mins);
  }

  /** The date part, time part and suffix come back out of the whole text. */
  lemma {:induction false} SplitThreeParts(datePart: string, timePart: string, suffix: string)
    requires |datePart| >= 1 && !IsWhitespace(datePart[0])
    requires |suffix| >= 1 && !IsWhitespace(suffix[|suffix| - 1])
    requires ' ' !in datePart && ' ' !in timePart && ' ' !in suffix
    ensures Split(Trim(datePart + " " + timePart + " " + suffix), ' ') == [datePart, timePart, suffix]
  {
    var s := datePart + " " + timePart + " " + suffix;
    NothingToTrim(s);
    JoinThree(datePart, timePart, suffix, ' ');
    SplitJoin([datePart, timePart, suffix], ' ');
  }

  lemma {:induction false} NothingToTrim(s: string)
    requires |s| >= 1 && !IsWhitespace(s[0]) && !IsWhitespace(s[|s| - 1])
    ensures Trim(s) == s
  {
  }

  lemma {:induction false} JoinThree(a: string, b: string, c: string, sep: char)
    ensures Join([a, b, c], sep) == a + [sep] + b + [sep] + c
  {
    assert [a, b, c][1..] == [b, c];
    assert Join([b, c], sep) == b + [sep] + c;
  }

  lemma {:induction false} JoinTwo(a: string, b: string, sep: char)
    ensures Join([a, b], sep) == a + [sep] + b
  {
  }

  lemma {:induction false} DateFieldsOf(ms: string, ds: string, ys: string)
    requires |ms| >= 1 && |ds| >= 1 && |ys| >= 1
    requires AllDigits(ms) && AllDigits(ds) && AllDigits(ys)
    ensures Split(ms + "/" + ds + "/" + ys, '/') == [ms, ds, ys]
  {
    NoCharInDigits(ms, '/'); NoCharInDigits(ds, '/'); NoCharInDigits(ys, '/');
    JoinThree(ms, ds, ys, '/');
    SplitJoin([ms, ds, ys], '/');
  }

  lemma {:induction false} TimeFieldsOf(hs: string, mins: string)
    requires |hs| >= 1 && |mins| >= 1 && AllDigits(hs) && AllDigits(mins)
    ensures Split(hs + ":" + mins, ':') == [hs, mins]
  {
    NoCharInDigits(hs, ':'); NoCharInDigits(mins, ':');
    JoinTwo(hs, mins, ':');
    SplitJoin([hs, mins], ':');
  }

  lemma {:induction false} NoSpaceInFields(ms: string, ds: string, ys: string, hs: string, mins: string)
    requires AllDigits(ms) && AllDigits(ds) && AllDigits(ys) && AllDigits(hs) && AllDigits(mins)
    requires |ms| >= 1
    ensures ' ' !in ms + "/" + ds + "/" + ys
    ensures ' ' !in hs + ":" + mins
    ensures |ms + "/" + ds + "/" + ys| >= 1 && !IsWhitespace((ms + "/" + ds + "/" + ys)[0])
  {
    assert (ms + "/" + ds + "/" + ys)[0] == ms[0];
    NoCharInDigits(ms, ' '); NoCharInDigits(ds, ' '); NoCharInDigits(ys, ' ');
    NoCharInDigits(hs, ' '); NoCharInDigits(mins, ' ');
  }

  lemma {:induction false} NoCharInDigits(d: string, c: char)
    requires AllDigits(d) && !IsDigit(c)
    ensures c !in d
  {
    forall i | 0 <= i < |d| ensures d[i] != c {
      assert IsDigit(d[i]);
    }
  }

  /** Two-digit, zero-padded decimal, as the `"2-digit"` month, day and minute. */
  function Pad2(n: nat): (r: string)
    requires n < 100
    ensures |r| == 2 && AllDigits(r) && DigitsValue(r) == n
  {
    if n < 10 then
      DigitsValueLeadingZero(NatToString(n));
      "0" + NatToString(n)
    else
      assert NatToString(n) == NatToString(n / 10) + [DigitChar(n % 10)];
      NatToString(n)
  }

  /** The 12-hour clock: 0 and 12 show as 12. */
  function Hour12(hour: nat): (h: nat)
    requires hour < 24
    ensures 1 <= h <= 12
  {
    if hour % 12 == 0 then 12 else hour % 12
  }

  /** The text `formatLocalDateTime` produces in an en-US locale,
      `MM/DD/YYYY H:MM AM` (month, day and minute two digits, the hour
      unpadded on the 12-hour clock); the locale is not otherwise modelled. */
  function FormatUsDateTime(t: DateTime): string
    requires 1 <= t.month <= 12 && 1 <= t.day <= 31 && 1 <= t.year
    requires 0 <= t.hour < 24 && 0 <= t.minute < 60
  {
    (Pad2(t.month) + "/" + Pad2(t.day) + "/" + NatToString(t.year)) + " "
    + (NatToString(Hour12(t.hour)) + ":" + Pad2(t.minute)) + " " + (if t.hour < 12 then "AM" else "PM")
  }

  /** Every en-US date and time text the app itself would prefill parses back
      to the same components. */
  lemma {:induction false} ParseFormatRoundTrip(t: DateTime)
    requires 1 <= t.month <= 12 && 1 <= t.day <= 31 && 1 <= t.year
    requires 0 <= t.hour < 24 && 0 <= t.minute < 60
    ensures ParseLocalDateTime(FormatUsDateTime(t)) == Some(t)
  {
    var suffix := if t.hour < 12 then "AM" else "PM";
    SuffixReadsBack(t.hour);
    ParseLocalDateTimeAccepts(Pad2(t.month), Pad2(t.day), NatToString(t.year), NatToString(Hour12(t.hour)), Pad2(t.minute), suffix);
  }

  /** The meridiem suffix the 12-hour clock prints is one clean token, and
      turning it back into 24-hour time restores the hour. */
  lemma SuffixReadsBack(hour: nat)
    requires hour < 24
    ensures var suffix := if hour < 12 then "AM" else "PM";
            |suffix| >= 1 && ' ' !in suffix && !IsWhitespace(suffix[|suffix| - 1])
            && To24Hour(Hour12(hour), suffix) == hour
  {
    var suffix := if hour < 12 then "AM" else "PM";
    assert ToUpper(suffix) == suffix;
  }

  /** `formatHoursMinutes`: `Hh Mm`, or `0h 0m` for zero and negative input. */
  function FormatHoursMinutes(minutes: int): string {
    if minutes <= 0 then "0h 0m"
    else NatToString(minutes / 60) + "h " + NatToString(minutes % 60) + "m"
  }

  /** Reads `<digits>h <digits>m` back into its two numbers. */
  function ReadHoursMinutes(s: string): Option<(nat, nat)> {
    var i := IndexOf(s, 'h');
    if i == 0 || i + 3 >= |s| || s[i + 1] != ' ' || s[|s| - 1] != 'm' then None
    else
      var hs := s[..i];
      var ms := s[i + 2..|s| - 1];
      if AllDigits(hs) && AllDigits(ms) then Some((DigitsValue(hs), DigitsValue(ms))) else None
  }

  lemma {:induction false} ReadHoursMinutesOf(h: nat, m: nat)
    ensures ReadHoursMinutes(NatToString(h) + "h " + NatToString(m) + "m") == Some((h, m))
  {
    var hs, ms := NatToString(h), NatToString(m);
    var s := hs + "h " + ms + "m";
    NoCharInDigits(hs, 'h');
    assert s == hs + ['h'] + (" " + ms + "m");
    IndexOfAfter(hs, 'h', " " + ms + "m");
    assert s[..|hs|] == hs;
    assert s[|hs| + 2..|s| - 1] == ms;
  }

  /** What `formatHoursMinutes` prints always reads back as `h` hours and
      `m` minutes with `m < 60`; for positive input `h * 60 + m` is the
      input, otherwise both are zero. */
  lemma {:induction false} FormatHoursMinutesMeaning(minutes: int)
    ensures var r := ReadHoursMinutes(FormatHoursMinutes(minutes));
            r.Some? && r.value.1 < 60
            && (minutes <= 0 ==> r.value == (0, 0))
            && (minutes > 0 ==> r.value.0 * 60 + r.value.1 == minutes)
  {
    if minutes <= 0 {
      ReadHoursMinutesOf(0, 0);
      assert NatToString(0) == "0";
    } else {
      ReadHoursMinutesOf(minutes / 60, minutes % 60);
    }
  }
}
