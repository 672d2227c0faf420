/**
 * The string and number helpers of packages/reef/src/date.ts; packages/sunshine/src/utils.ts
 * holds the same four helpers word for word. An ISO 8601 date-time may end in a time offset
 * in the form of section 5.6 of RFC 3339: `Z`, or a sign and `HH:MM`.
 *
 * Luxon's verdict on a string (`DateTime.fromISO(s).isValid`) is a parameter, and of
 * `getDate` only the choice it makes for a number is modelled.
 */
module ReefDate {
  import opened Wrappers
  import JsString
  import ReefNumber
  import ReefLibDate

  predicate IsDigit(c: char)
  {
    '0' <= c <= '9'
  }

  /** `o` is a sign and `HH:MM`: what `[+-]\d{2}:\d{2}` matches. */
  predicate IsOffsetText(o: string)
  {
    && |o| == 6
    && (o[0] == '+' || o[0] == '-')
    && IsDigit(o[1]) && IsDigit(o[2])
    && o[3] == ':'
    && IsDigit(o[4]) && IsDigit(o[5])
  }

  /** `s` ends in a sign and `HH:MM`. */
  predicate EndsWithOffset(s: string)
  {
    |s| >= 6 && IsOffsetText(s[|s| - 6..])
  }

  /** `s` ends in `Z`. */
  predicate EndsWithZ(s: string)
  {
    |s| >= 1 && s[|s| - 1] == 'Z'
  }

  /** The match of `([+-]\d{2}:\d{2}|Z)$` that starts at `i`, alternatives tried in order. */
  function MatchAt(s: string, i: nat): Option<string>
    requires i <= |s|
  {
    if IsOffsetText(s[i..]) then Some(s[i..])
    else if s[i..] == "Z" then Some("Z")
    else None
  }

  /** `s.match(...)`: the leftmost match at `i` or after. */
  function FindMatch(s: string, i: nat): Option<string>
    requires i <= |s|
    decreases |s| - i
  {
    if MatchAt(s, i).Some? then MatchAt(s, i)
    else if i == |s| then None
    else FindMatch(s, i + 1)
  }

  /** `extractOffsetFromISO(date)`: the trailing offset, with `Z` read as `+00:00`. */
  function ExtractOffsetFromISO(date: string): (r: Option<string>)
    ensures r.Some? ==> r.value == "+00:00" || (|date| >= 6 && r.value == date[|date| - 6..])
    ensures r.None? ==> !EndsWithOffset(date) && !EndsWithZ(date)
  {
    FindMatchAtEnd(date, 0);
    match FindMatch(date, 0)
    case None => None
    case Some(m) => Some(if m == "Z" then "+00:00" else m)
  }

  /** The search from `i` finds a trailing offset that starts at `i` or after, else a trailing `Z`. */
  lemma {:induction false} FindMatchAtEnd(s: string, i: nat)
    requires i <= |s|
    ensures FindMatch(s, i) ==
              if EndsWithOffset(s) && i <= |s| - 6 then Some(s[|s| - 6..])
              else if EndsWithZ(s) && i <= |s| - 1 then Some("Z")
              else None
    decreases |s| - i
  {
    if i < |s| {
      FindMatchAtEnd(s, i + 1);
      if i == |s| - 1 {
        assert s[i..] == [s[|s| - 1]];
      }
    }
  }

  /**
   * A trailing sign and `HH:MM` is the result, a trailing `Z` gives `+00:00`, and anything
   * else gives null.
   */
  lemma ExtractOffsetFromISOSuffix(date: string)
    ensures ExtractOffsetFromISO(date) ==
              if EndsWithOffset(date) then Some(date[|date| - 6..])
              else if EndsWithZ(date) then Some("+00:00")
              else None
  {
    FindMatchAtEnd(date, 0);
  }

  /** Every result is six characters: a sign, two digits, `':'` and two digits. */
  lemma ExtractOffsetFromISOShape(date: string)
    requires ExtractOffsetFromISO(date).Some?
    ensures IsOffsetText(ExtractOffsetFromISO(date).value)
  {
    ExtractOffsetFromISOSuffix(date);
  }

  /** A date that ends in a sign and `HH:MM` gives exactly that offset. */
  lemma ExtractOffsetFromISOOfOffset(day: string, o: string)
    requires IsOffsetText(o)
    ensures ExtractOffsetFromISO(day + o) == Some(o)
  {
    var d := day + o;
    ExtractOffsetFromISOSuffix(d);
    assert d[|d| - 6..] == o;
  }

  /** A date that ends in a digit, with no sign six characters from its end, has no offset to give. */
  lemma ExtractOffsetFromISOWithout(day: string)
    requires |day| >= 1 && IsDigit(day[|day| - 1])
    requires |day| >= 6 ==> day[|day| - 6] != '+' && day[|day| - 6] != '-'
    ensures ExtractOffsetFromISO(day) == None
  {
    ExtractOffsetFromISOSuffix(day);
    if |day| >= 6 {
      assert day[|day| - 6..][0] == day[|day| - 6];
    }
  }

  /**
   * A date-time such as `2022-01-01T00:00:00` followed by `-06:00`, `+05:30`, `Z`, nothing,
   * and the compact `-0600`.
   */
  lemma ExtractOffsetFromISOExamples(day: string)
    requires |day| >= 6 && IsDigit(day[|day| - 1]) && day[|day| - 6] == ':'
    ensures ExtractOffsetFromISO(day + "-06:00") == Some("-06:00")
    ensures ExtractOffsetFromISO(day + "+05:30") == Some("+05:30")
    ensures ExtractOffsetFromISO(day + "Z") == Some("+00:00")
    ensures ExtractOffsetFromISO(day) == None
    ensures ExtractOffsetFromISO(day + "-0600") == None
  {
    ExtractOffsetFromISOOfOffset(day, "-06:00");
    ExtractOffsetFromISOOfOffset(day, "+05:30");
    ExtractOffsetFromISOSuffix(day + "Z");
    ExtractOffsetFromISOWithout(day);
    var c := day + "-0600";
    assert c[|c| - 1] == '0' && c[|c| - 6] == day[|day| - 1];
    ExtractOffsetFromISOWithout(c);
  }

  /** `s.padEnd(width, '0')`. */
  function PadEnd(s: string, width: int): (r: string)
  {
    if width <= |s| then s else s + ReefNumber.Repeat('0', width - |s|)
  }

  /** `convertOffsetToTimezone(offset)`: the hours part, then the minutes part padded to two. */
  function ConvertOffsetToTimezone(offset: string): (r: string)
    ensures |r| >= 2 && ':' !in r[..|r| - 2]
  {
    var parts := JsString.Split(offset, ':');
    var minutes := if |parts| > 1 && parts[1] != "" then parts[1] else "00";
    parts[0] + PadEnd(minutes, 2)
  }

  /** With hours and minutes around the first `':'`, later parts are dropped and short minutes padded. */
  lemma ConvertOffsetToTimezoneParts(hours: string, minutes: string, rest: string)
    requires ':' !in hours && ':' !in minutes
    ensures ConvertOffsetToTimezone(hours + ":" + minutes) ==
              hours + (if minutes == "" then "00" else PadEnd(minutes, 2))
    ensures ConvertOffsetToTimezone(hours + ":" + minutes + ":" + rest) ==
              hours + (if minutes == "" then "00" else PadEnd(minutes, 2))
  {
    JsString.SplitAppend(hours, minutes, ':');
    JsString.SplitNoSep(hours, ':');
    JsString.SplitNoSep(minutes, ':');
    assert hours + ":" + minutes == hours + [':'] + minutes;
    JsString.SplitAppend(hours, minutes + ":" + rest, ':');
    JsString.SplitAppend(minutes, rest, ':');
    assert hours + ":" + minutes + ":" + rest == hours + [':'] + (minutes + [':'] + rest);
  }

  /** Without a `':'`, the offset is kept whole and `"00"` follows it. */
  lemma ConvertOffsetToTimezoneNoColon(offset: string)
    requires ':' !in offset
    ensures ConvertOffsetToTimezone(offset) == offset + "00"
  {
    JsString.SplitNoSep(offset, ':');
  }

  /** One minute digit gains a `'0'` on the right: `+05:3` becomes `+0530`. */
  lemma ConvertOffsetToTimezonePadsRight(hours: string, m: char)
    requires ':' !in hours && m != ':'
    ensures ConvertOffsetToTimezone(hours + ":" + [m]) == hours + [m, '0']
  {
    ConvertOffsetToTimezoneParts(hours, [m], "");
    assert ReefNumber.Repeat('0', 1) == "0";
  }

  /** A sign and `HH:MM` loses its colon: `-06:00` becomes `-0600`. */
  lemma ConvertOffsetToTimezoneOfOffset(o: string)
    requires IsOffsetText(o)
    ensures ConvertOffsetToTimezone(o) == o[..3] + o[4..]
    ensures |ConvertOffsetToTimezone(o)| == 5
  {
    var hours, minutes := o[..3], o[4..];
    assert o == hours + ":" + minutes;
    ConvertOffsetToTimezoneParts(hours, minutes, "");
  }

  /** What `extractOffsetFromISO` finds converts to five characters: a sign and `HHMM`. */
  lemma ExtractThenConvert(date: string)
    requires ExtractOffsetFromISO(date).Some?
    ensures var t := ConvertOffsetToTimezone(ExtractOffsetFromISO(date).value);
            && |t| == 5 && (t[0] == '+' || t[0] == '-')
            && forall k :: 1 <= k < 5 ==> IsDigit(t[k])
  {
    var o := ExtractOffsetFromISO(date).value;
    ExtractOffsetFromISOShape(date);
    ConvertOffsetToTimezoneOfOffset(o);
  }

  /** `timestampIsSec(t)`: an integer from 0 to 1e10 - 1. */
  predicate TimestampIsSec(t: real)
  {
    ReefLibDate.IsInteger(t) && 0.0 <= t <= ReefLibDate.MaxSeconds
  }

  /** `timestampIsMs(t)`: an integer from 0 to 1e13 - 1. */
  predicate TimestampIsMs(t: real)
  {
    ReefLibDate.IsInteger(t) && 0.0 <= t <= ReefLibDate.MaxMillis
  }

  /** The seconds range lies inside the milliseconds range. */
  lemma SecondsWithinMillis(t: real)
    requires TimestampIsSec(t)
    ensures TimestampIsMs(t)
  {
  }

  /** Both checks refuse negative and fractional numbers, and accept 0 and 1e13 - 1 as milliseconds. */
  lemma TimestampBounds(t: real)
    ensures t < 0.0 || !ReefLibDate.IsInteger(t) ==> !TimestampIsSec(t) && !TimestampIsMs(t)
    ensures TimestampIsSec(0.0) && TimestampIsMs(0.0) && TimestampIsMs(9999999999999.0)
    ensures !TimestampIsSec(10000000000.0) && !TimestampIsMs(10000000000000.0)
  {
  }

  /** Where `getDate` takes a date from: now, a count of milliseconds or of seconds, or it throws. */
  datatype DateSource = Now | FromMillis(ms: real) | FromSeconds(seconds: real) | InvalidDateType

  /** The instant a source from a number stands for, in milliseconds since 1970. */
  function EpochMillis(d: DateSource): real
    requires d.FromMillis? || d.FromSeconds?
  {
    if d.FromMillis? then d.ms else d.seconds * 1000.0
  }

  /** `getDate(t)` for a number `t`: 0 is falsy, then milliseconds are tried before seconds. */
  function DateOfNumber(t: real): (d: DateSource)
    ensures d == Now <==> t == 0.0
    ensures !d.FromSeconds?
    ensures d.FromMillis? ==> d.ms == t
  {
    if t == 0.0 then Now
    else if TimestampIsMs(t) then FromMillis(t)
    else if TimestampIsSec(t) then FromSeconds(t)
    else InvalidDateType
  }

  /**
   * As written, no number reaches the seconds branch: `1640995200` (2022-01-01 in seconds)
   * is read as milliseconds, an instant in January 1970.
   */
  lemma DateOfNumberNeverSeconds(t: real)
    ensures !DateOfNumber(t).FromSeconds?
    ensures DateOfNumber(1640995200.0) == FromMillis(1640995200.0)
    ensures EpochMillis(DateOfNumber(1640995200.0)) < 86400000.0 * 31.0
  {
  }

  /** The dispatch with the disjoint ranges of packages/reef/src/lib/date.ts. */
  function DateOfNumberCorrected(t: real): (d: DateSource)
    ensures d == Now <==> t == 0.0
    ensures d.FromMillis? ==> d.ms == t
    ensures d.FromSeconds? ==> d.seconds == t && EpochMillis(d) == t * 1000.0
    ensures t != 0.0 && ReefLibDate.TimestampIsSec(t) ==> d.FromSeconds?
  {
    if t == 0.0 then Now
    else if ReefLibDate.TimestampIsMs(t) then FromMillis(t)
    else if ReefLibDate.TimestampIsSec(t) then FromSeconds(t)
    else InvalidDateType
  }

  /**
   * With the disjoint ranges every seconds timestamp is read as seconds, and stands for the
   * same instant as its milliseconds equivalent; 1640995200 is 2022-01-01.
   */
  lemma DateOfNumberCorrectedSeconds(t: real)
    requires ReefLibDate.TimestampIsSec(t)
    ensures DateOfNumberCorrected(t) == FromSeconds(t)
    ensures DateOfNumberCorrected(t * 1000.0).FromMillis?
    ensures EpochMillis(DateOfNumberCorrected(t)) == EpochMillis(DateOfNumberCorrected(t * 1000.0))
  {
    ReefLibDate.SecondsAndMillisDisjoint(t);
    ReefLibDate.SecondsScaleToMillis(t);
  }

  /**
   * `isValidIsoDateWithTimezone(s)` as written: luxon accepts `s`, it holds a `'T'`, and it
   * holds a `'+'`, a `'-'` or a `'Z'` anywhere. A throw from luxon is caught as false, which is
   * what `luxonValid == false` stands for.
   */
  predicate IsValidIsoDateWithTimezone(s: string, luxonValid: bool)
  {
    luxonValid && 'T' in s && ('+' in s || '-' in s || 'Z' in s)
  }

  /** Without a `'T'` the check fails; with one, any dash of the date part passes the offset test. */
  lemma IsValidIsoDateWithTimezoneLoose(s: string, luxonValid: bool)
    ensures 'T' !in s ==> !IsValidIsoDateWithTimezone(s, luxonValid)
    ensures luxonValid && 'T' in s && '-' in s ==> IsValidIsoDateWithTimezone(s, luxonValid)
  {
  }

  /** `2022-01-01T00:00:00` has no offset, yet passes whenever luxon parses it. */
  lemma IsValidIsoDateWithTimezoneAcceptsNoOffset()
    ensures var s := "2022-01-01" + "T" + "00:00:00";
            IsValidIsoDateWithTimezone(s, true) && ExtractOffsetFromISO(s) == None
  {
    var s := "2022-01-01" + "T" + "00:00:00";
    assert s[4] == '-' && s[10] == 'T' && s[|s| - 6] == ':';
    ExtractOffsetFromISOWithout(s);
  }
}
