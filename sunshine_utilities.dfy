/**
 * The date-string check of packages/sunshine/src/lib/utilities.ts. Its `getOffsetFromISO`
 * is the same code as `extractOffsetFromISO` and is `ReefDate.ExtractOffsetFromISO` here; its
 * timestamp checks are those of `ReefLibDate`. Luxon's verdict on a string is a parameter.
 */
module SunshineUtilities {
  import ReefDate

  /** `o` is a sign and `HHMM`: what `[+-]\d{4}` matches. */
  predicate IsCompactOffsetText(o: string)
  {
    && |o| == 5
    && (o[0] == '+' || o[0] == '-')
    && forall k :: 1 <= k < 5 ==> ReefDate.IsDigit(o[k])
  }

  /** The text from `i` on is all matched by `([+-]\d{2}:\d{2}|[+-]\d{4}|Z)$`. */
  predicate TimezoneAt(s: string, i: nat)
    requires i <= |s|
  {
    ReefDate.IsOffsetText(s[i..]) || IsCompactOffsetText(s[i..]) || s[i..] == "Z"
  }

  /** `timezoneRegex.test(s)`: a match starts somewhere in `s`. */
  predicate TimezoneRegexTest(s: string)
  {
    exists i: nat | i <= |s| :: TimezoneAt(s, i)
  }

  /** `s` ends in a sign and `HH:MM`, a sign and `HHMM`, or `Z`. */
  predicate EndsWithTimezone(s: string)
  {
    || ReefDate.EndsWithOffset(s)
    || (|s| >= 5 && IsCompactOffsetText(s[|s| - 5..]))
    || ReefDate.EndsWithZ(s)
  }

  /** The regex, anchored at the end, only looks at the last six, five or one characters. */
  lemma TimezoneRegexTestSuffix(s: string)
    ensures TimezoneRegexTest(s) <==> EndsWithTimezone(s)
  {
    if EndsWithTimezone(s) {
      if ReefDate.EndsWithOffset(s) {
        assert TimezoneAt(s, |s| - 6);
      } else if |s| >= 5 && IsCompactOffsetText(s[|s| - 5..]) {
        assert TimezoneAt(s, |s| - 5);
      } else {
        assert s[|s| - 1..] == "Z";
        assert TimezoneAt(s, |s| - 1);
      }
    }
    if TimezoneRegexTest(s) {
      var i: nat :| i <= |s| && TimezoneAt(s, i);
      if ReefDate.IsOffsetText(s[i..]) {
        assert i == |s| - 6;
      } else if IsCompactOffsetText(s[i..]) {
        assert i == |s| - 5;
      } else {
        assert s[i..][0] == s[|s| - 1];
      }
    }
  }

  /**
   * `isValidIsoDateWithTimezone(s)`: luxon accepts `s`, it holds a `'T'`, and the regex
   * finds a time zone at its end. A throw from luxon is caught as false, which is what
   * `luxonValid == false` stands for.
   */
  predicate IsValidIsoDateWithTimezone(s: string, luxonValid: bool)
  {
    luxonValid && 'T' in s && TimezoneRegexTest(s)
  }

  /**
   * The check holds exactly when luxon accepts the string, it holds a `'T'`, and it ends in
   * a sign and `HH:MM`, a sign and `HHMM`, or `Z`, whatever luxon decides.
   */
  lemma IsValidIsoDateWithTimezoneSuffix(s: string, luxonValid: bool)
    ensures IsValidIsoDateWithTimezone(s, luxonValid) <==>
              luxonValid && 'T' in s && EndsWithTimezone(s)
  {
    TimezoneRegexTestSuffix(s);
  }

  /** Where `getOffsetFromISO` finds an offset, the check asks only for luxon and a `'T'`. */
  lemma IsValidIsoDateWithTimezoneWithOffset(s: string, luxonValid: bool)
    requires ReefDate.ExtractOffsetFromISO(s).Some?
    ensures IsValidIsoDateWithTimezone(s, luxonValid) <==> luxonValid && 'T' in s
  {
    ReefDate.ExtractOffsetFromISOSuffix(s);
    IsValidIsoDateWithTimezoneSuffix(s, luxonValid);
  }

  /** Every string this check accepts also passes the looser check of packages/reef/src/date.ts. */
  lemma IsValidIsoDateWithTimezoneStricter(s: string, luxonValid: bool)
    requires IsValidIsoDateWithTimezone(s, luxonValid)
    ensures ReefDate.IsValidIsoDateWithTimezone(s, luxonValid)
  {
    IsValidIsoDateWithTimezoneSuffix(s, luxonValid);
    if ReefDate.EndsWithOffset(s) {
      assert s[|s| - 6..][0] == s[|s| - 6];
    } else if |s| >= 5 && IsCompactOffsetText(s[|s| - 5..]) {
      assert s[|s| - 5..][0] == s[|s| - 5];
    }
  }

  /** A string with a `'T'` that luxon parses and that ends in a time zone is accepted. */
  lemma AcceptedWithTimezone(s: string)
    requires 'T' in s && EndsWithTimezone(s)
    ensures IsValidIsoDateWithTimezone(s, true)
  {
    IsValidIsoDateWithTimezoneSuffix(s, true);
  }

  /**
   * `2022-01-01T00:00:00` is refused even when luxon parses it, while the looser check of
   * packages/reef/src/date.ts accepts it; with `+05:30` or `-0600` at its end it is accepted.
   */
  lemma IsValidIsoDateWithTimezoneExamples()
    ensures var s := "2022-01-01" + "T" + "00:00:00";
            && !IsValidIsoDateWithTimezone(s, true)
            && ReefDate.IsValidIsoDateWithTimezone(s, true)
            && IsValidIsoDateWithTimezone(s + "+05:30", true)
            && IsValidIsoDateWithTimezone(s + "-0600", true)
  {
    var s := "2022-01-01" + "T" + "00:00:00";
    assert s[4] == '-' && s[10] == 'T';
    NoTimezoneAtEnd(s);
    var a, c := s + "+05:30", s + "-0600";
    assert a[10] == 'T' && a[|a| - 6..] == "+05:30";
    AcceptedWithTimezone(a);
    assert c[10] == 'T' && c[|c| - 5..] == "-0600";
    AcceptedWithTimezone(c);
  }

  /** A string whose last six characters are `:` and digits ends in no time zone. */
  lemma NoTimezoneAtEnd(s: string)
    requires |s| >= 6 && s[|s| - 6] == ':'
    requires forall k :: |s| - 5 <= k < |s| ==> ReefDate.IsDigit(s[k]) || s[k] == ':'
    ensures !TimezoneRegexTest(s)
  {
    TimezoneRegexTestSuffix(s);
    assert s[|s| - 6..][0] == ':';
    assert s[|s| - 5..][0] == s[|s| - 5];
  }
}
