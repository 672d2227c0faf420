/**
 * String helpers of the reef package (packages/reef/src/string.ts): `capitalizeWords`, the
 * character filter `getOnlyAlphaNumeric`, the `checkEmail` recogniser and `getRandomCharset`.
 *
 * Case mapping covers the ASCII letters only; `Math.random()` is a parameter.
 */
module ReefString {
  import opened JsString
  import ReefArray

  // ---------------------------------------------------------------------------------------
  // capitalizeWords
  // ---------------------------------------------------------------------------------------

  /** `word.charAt(0).toUpperCase() + word.slice(1)`. */
  function CapitalizeWord(w: string): (r: string)
    ensures |r| == |w|
  {
    if w == "" then "" else [ToUpper(w[0])] + w[1..]
  }

  /** `words.map(...)` with the capitalizing callback. */
  function CapitalizeAll(ws: seq<string>): (r: seq<string>)
    ensures |r| == |ws|
  {
    if ws == [] then [] else [CapitalizeWord(ws[0])] + CapitalizeAll(ws[1..])
  }

  /** `capitalizeWords(s)`: trim, lower-case, split at `' '`, capitalize each word, join. */
  function CapitalizeWords(s: string): string
  {
    Join(CapitalizeAll(Split(LowerCase(Trim(s)), ' ')), ' ')
  }

  /** Joining a first part that gained a character in front gains that character in front. */
  lemma JoinConsFirst(c: char, p: string, q: seq<string>)
    ensures Join([[c] + p] + q, ' ') == [c] + Join([p] + q, ' ')
  {
    if q != [] {
      assert ([[c] + p] + q)[1..] == q == ([p] + q)[1..];
    }
  }

  /**
   * A reference reading of the capitalizing step, one character at a time: a character is
   * upper-cased when it starts the text (and `atStart` holds) or follows a space.
   */
  function CapitalizeFrom(u: string, atStart: bool): (r: string)
    ensures |r| == |u|
  {
    if u == [] then [] else [if atStart then ToUpper(u[0]) else u[0]] + CapitalizeFrom(u[1..], u[0] == ' ')
  }

  /**
   * Splitting at `' '`, capitalizing the words and joining them again is the character
   * reading; leaving the first word alone is the character reading without a start.
   */
  lemma {:induction false} JoinCapitalized(u: string)
    ensures Join(CapitalizeAll(Split(u, ' ')), ' ') == CapitalizeFrom(u, true)
    ensures var parts := Split(u, ' ');
            Join([parts[0]] + CapitalizeAll(parts[1..]), ' ') == CapitalizeFrom(u, false)
  {
    if u != [] {
      JoinCapitalized(u[1..]);
      var rest := Split(u[1..], ' ');
      var parts := Split(u, ' ');
      if u[0] == ' ' {
        assert parts == [""] + rest;
        assert parts[1..] == rest;
        assert CapitalizeAll(parts) == [""] + CapitalizeAll(rest);
        assert ([""] + CapitalizeAll(rest))[1..] == CapitalizeAll(rest);
      } else {
        assert parts == [[u[0]] + rest[0]] + rest[1..];
        assert parts[1..] == rest[1..];
        assert CapitalizeAll(parts) == [[ToUpper(u[0])] + rest[0]] + CapitalizeAll(rest[1..]);
        JoinConsFirst(ToUpper(u[0]), rest[0], CapitalizeAll(rest[1..]));
        JoinConsFirst(u[0], rest[0], CapitalizeAll(rest[1..]));
      }
    }
  }

  /** The character reading, position by position. */
  lemma {:induction false} CapitalizeFromAt(u: string, atStart: bool)
    ensures forall k :: 0 <= k < |u| ==>
              CapitalizeFrom(u, atStart)[k] ==
                if (k == 0 && atStart) || (0 < k && u[k - 1] == ' ') then ToUpper(u[k]) else u[k]
  {
    if u != [] {
      CapitalizeFromAt(u[1..], u[0] == ' ');
      var tail := CapitalizeFrom(u[1..], u[0] == ' ');
      assert CapitalizeFrom(u, atStart) == [if atStart then ToUpper(u[0]) else u[0]] + tail;
    }
  }

  /** The case mappings leave white space alone and never make any. */
  lemma CaseKeepsSpace(c: char)
    ensures ToLower(c) == ' ' <==> c == ' '
    ensures ToUpper(ToLower(c)) == ' ' <==> c == ' '
    ensures IsJsSpace(ToLower(c)) <==> IsJsSpace(c)
    ensures IsJsSpace(ToUpper(ToLower(c))) <==> IsJsSpace(c)
  {
  }

  /**
   * What `capitalizeWords` makes of position `k` of the trimmed text `t`: a character that
   * starts the text or follows a space is lower-cased and then upper-cased, every other
   * character is lower-cased.
   */
  function CapitalizedChar(t: string, k: nat): char
    requires k < |t|
  {
    if k == 0 || t[k - 1] == ' ' then ToUpper(ToLower(t[k])) else ToLower(t[k])
  }

  /** `r` is `t` capitalized character by character. */
  predicate CapitalizedAs(t: string, r: string)
  {
    |r| == |t| && forall k :: 0 <= k < |t| ==> r[k] == CapitalizedChar(t, k)
  }

  /**
   * `capitalizeWords` character by character: the result is as long as the trimmed input,
   * and each position is the trimmed input's character, capitalized when it starts a word
   * and lower-cased otherwise.
   */
  lemma CapitalizeWordsAt(s: string)
    ensures CapitalizedAs(Trim(s), CapitalizeWords(s))
  {
    var t := Trim(s);
    var u := LowerCase(t);
    JoinCapitalized(u);
    CapitalizeFromAt(u, true);
    forall k | 0 <= k < |t|
      ensures CapitalizeWords(s)[k] == CapitalizedChar(t, k)
    {
      if k > 0 {
        CaseKeepsSpace(t[k - 1]);
      }
    }
  }

  /** Capitalizing keeps the spaces where they were and adds none. */
  lemma CapitalizedSpaces(t: string, r: string, k: nat)
    requires CapitalizedAs(t, r) && k < |t|
    ensures r[k] == ' ' <==> t[k] == ' '
    ensures IsJsSpace(r[k]) <==> IsJsSpace(t[k])
  {
    CaseKeepsSpace(t[k]);
    assert r[k] == CapitalizedChar(t, k);
  }

  /** Capitalizing a capitalized text changes nothing. */
  lemma CapitalizedTwice(t: string, r: string, r2: string)
    requires CapitalizedAs(t, r) && CapitalizedAs(r, r2)
    ensures r2 == r
  {
    forall k | 0 <= k < |r|
      ensures r2[k] == r[k]
    {
      assert r2[k] == CapitalizedChar(r, k);
      assert r[k] == CapitalizedChar(t, k);
      if k > 0 {
        CapitalizedSpaces(t, r, k - 1);
      }
    }
  }

  /** The number of parts of a split depends only on where the separators are. */
  lemma {:induction false} SplitCountBySeparators(a: string, b: string, sep: char)
    requires |a| == |b| && forall k :: 0 <= k < |a| ==> (a[k] == sep <==> b[k] == sep)
    ensures |Split(a, sep)| == |Split(b, sep)|
  {
    if a != [] {
      SplitCountBySeparators(a[1..], b[1..], sep);
    }
  }

  /**
   * `capitalizeWords` keeps the trimmed length and the number of `' '`-separated words,
   * empty words between double spaces included.
   */
  lemma CapitalizeWordsKeepsShape(s: string)
    ensures |CapitalizeWords(s)| == |Trim(s)|
    ensures |Split(CapitalizeWords(s), ' ')| == |Split(Trim(s), ' ')|
  {
    var t := Trim(s);
    var r := CapitalizeWords(s);
    CapitalizeWordsAt(s);
    forall k | 0 <= k < |t|
      ensures r[k] == ' ' <==> t[k] == ' '
    {
      CapitalizedSpaces(t, r, k);
    }
    SplitCountBySeparators(r, t, ' ');
  }

  /** The result of `capitalizeWords` neither starts nor ends with white space. */
  lemma CapitalizeWordsIsTrimmed(s: string)
    ensures Trim(CapitalizeWords(s)) == CapitalizeWords(s)
  {
    var t := Trim(s);
    var r := CapitalizeWords(s);
    CapitalizeWordsAt(s);
    var i, j := TrimSlice(s);
    if r != [] {
      CapitalizedSpaces(t, r, 0);
      CapitalizedSpaces(t, r, |t| - 1);
    }
    TrimKeepsClean(r);
  }

  /** Capitalizing capitalized words changes nothing. */
  lemma CapitalizeWordsIdempotent(s: string)
    ensures CapitalizeWords(CapitalizeWords(s)) == CapitalizeWords(s)
  {
    var r := CapitalizeWords(s);
    CapitalizeWordsAt(s);
    CapitalizeWordsIsTrimmed(s);
    CapitalizeWordsAt(r);
    CapitalizedTwice(Trim(s), r, CapitalizeWords(r));
  }

  /** `capitalizeWords('hello world')` is `'Hello World'`. */
  lemma CapitalizeWordsExample()
    ensures CapitalizeWords("hello world") == "Hello World"
  {
    HelloWorldTrimmed();
    CapitalizeWordsAt("hello world");
    HelloWorldCapitalized(CapitalizeWords("hello world"));
  }

  lemma HelloWorldTrimmed()
    ensures Trim("hello world") == "hello world"
  {
    var s := "hello world";
    assert !IsJsSpace(s[0]) && !IsJsSpace(s[|s| - 1]);
    TrimKeepsClean(s);
  }

  lemma HelloWorldCapitalized(r: string)
    requires CapitalizedAs("hello world", r)
    ensures r == "Hello World"
  {
    var s := "hello world";
    assert r[0] == CapitalizedChar(s, 0) == 'H';
    assert r[6] == CapitalizedChar(s, 6) == 'W';
    assert forall k | 0 <= k < 11 && k != 0 && k != 6 :: r[k] == CapitalizedChar(s, k) == ToLower(s[k]) == s[k];
    assert r[1..6] == s[1..6] && r[7..] == s[7..];
    assert r == [r[0]] + r[1..6] + [r[6]] + r[7..];
  }

  // ---------------------------------------------------------------------------------------
  // getOnlyAlphaNumeric
  // ---------------------------------------------------------------------------------------

  /** `a-zA-Z0-9`. */
  predicate IsAsciiAlphaNumeric(c: char)
  {
    'a' <= c <= 'z' || 'A' <= c <= 'Z' || '0' <= c <= '9'
  }

  /** The accented letters the class always keeps: `áéíóú`, `ÁÉÍÓÚ`, `üÜ` and `ñÑ`. */
  predicate IsListedAccent(c: char)
  {
    c in {'\U{00E1}', '\U{00E9}', '\U{00ED}', '\U{00F3}', '\U{00FA}',
          '\U{00C1}', '\U{00C9}', '\U{00CD}', '\U{00D3}', '\U{00DA}',
          '\U{00FC}', '\U{00DC}', '\U{00F1}', '\U{00D1}'}
  }

  /**
   * The characters the negated class of `getOnlyAlphaNumeric` does not match. The `i` flag
   * adds none: the class already holds both cases of each of its letters.
   */
  predicate IsKept(c: char, keepWhitespace: bool, keepHyphen: bool, keepUnderscore: bool)
  {
    || IsAsciiAlphaNumeric(c)
    || IsListedAccent(c)
    || (keepWhitespace && IsJsSpace(c))
    || (keepHyphen && c == '-')
    || (keepUnderscore && c == '_')
  }

  /** The class as a test on one character. */
  function Allowed(keepWhitespace: bool, keepHyphen: bool, keepUnderscore: bool): char -> bool
  {
    c => IsKept(c, keepWhitespace, keepHyphen, keepUnderscore)
  }

  /**
   * `getOnlyAlphaNumeric(value, keepWhitespace, keepHyphen, keepUnderscore)`: every character
   * the class rejects is replaced by nothing, the others stay in order. The three flags
   * default to `true`.
   */
  function GetOnlyAlphaNumeric(value: string, keepWhitespace: bool, keepHyphen: bool, keepUnderscore: bool): (r: string)
    ensures |r| <= |value|
    ensures forall k :: 0 <= k < |r| ==> IsKept(r[k], keepWhitespace, keepHyphen, keepUnderscore)
  {
    ReefArray.Filter(value, Allowed(keepWhitespace, keepHyphen, keepUnderscore))
  }

  /** The test applied to a character is the class. */
  lemma AllowedIsKept(ws: bool, hy: bool, us: bool, c: char)
    ensures Allowed(ws, hy, us)(c) == IsKept(c, ws, hy, us)
  {
  }

  /**
   * One character is kept exactly when the class allows it: letters, digits and the listed
   * accented letters always, white space, `'-'` and `'_'` only when their flags are set.
   */
  lemma GetOnlyAlphaNumericOneChar(ws: bool, hy: bool, us: bool, c: char)
    ensures GetOnlyAlphaNumeric([c], ws, hy, us) == if IsKept(c, ws, hy, us) then [c] else []
  {
    var f := Allowed(ws, hy, us);
    AllowedIsKept(ws, hy, us, c);
    assert [c][1..] == [];
    assert ReefArray.Filter([c], f) == (if f(c) then [c] else []) + ReefArray.Filter([], f);
  }

  /** The result holds allowed characters only. */
  lemma GetOnlyAlphaNumericOnlyAllowed(value: string, ws: bool, hy: bool, us: bool)
    ensures var r := GetOnlyAlphaNumeric(value, ws, hy, us);
            forall k :: 0 <= k < |r| ==> IsKept(r[k], ws, hy, us)
  {
    var r := GetOnlyAlphaNumeric(value, ws, hy, us);
    forall k | 0 <= k < |r|
      ensures IsKept(r[k], ws, hy, us)
    {
      AllowedIsKept(ws, hy, us, r[k]);
    }
  }

  /**
   * Each character of the input occurs in the result as often as in the input when the class
   * allows it, and not at all otherwise.
   */
  lemma GetOnlyAlphaNumericCounts(value: string, ws: bool, hy: bool, us: bool, c: char)
    ensures multiset(GetOnlyAlphaNumeric(value, ws, hy, us))[c] == if IsKept(c, ws, hy, us) then multiset(value)[c] else 0
  {
    AllowedIsKept(ws, hy, us, c);
    ReefArray.FilterCounts(value, Allowed(ws, hy, us), c);
  }

  /** Filtering a concatenation concatenates the filtered pieces: the kept characters keep their order. */
  lemma GetOnlyAlphaNumericAppend(x: string, y: string, ws: bool, hy: bool, us: bool)
    ensures GetOnlyAlphaNumeric(x + y, ws, hy, us) == GetOnlyAlphaNumeric(x, ws, hy, us) + GetOnlyAlphaNumeric(y, ws, hy, us)
  {
    ReefArray.FilterAppend(x, y, Allowed(ws, hy, us));
  }

  /** A string made of allowed characters only comes back unchanged. */
  lemma GetOnlyAlphaNumericKeepsClean(value: string, ws: bool, hy: bool, us: bool)
    requires forall k :: 0 <= k < |value| ==> IsKept(value[k], ws, hy, us)
    ensures GetOnlyAlphaNumeric(value, ws, hy, us) == value
  {
    forall k | 0 <= k < |value|
      ensures Allowed(ws, hy, us)(value[k])
    {
      AllowedIsKept(ws, hy, us, value[k]);
    }
    ReefArray.FilterKeepsAll(value, Allowed(ws, hy, us));
  }

  /** A string made of rejected characters only is removed entirely. */
  lemma GetOnlyAlphaNumericDropsRejected(value: string, ws: bool, hy: bool, us: bool)
    requires forall k :: 0 <= k < |value| ==> !IsKept(value[k], ws, hy, us)
    ensures GetOnlyAlphaNumeric(value, ws, hy, us) == ""
  {
    forall k | 0 <= k < |value|
      ensures !Allowed(ws, hy, us)(value[k])
    {
      AllowedIsKept(ws, hy, us, value[k]);
    }
    ReefArray.NoHits(value, Allowed(ws, hy, us));
  }

  /** Filtering twice is filtering once. */
  lemma GetOnlyAlphaNumericIdempotent(value: string, ws: bool, hy: bool, us: bool)
    ensures var r := GetOnlyAlphaNumeric(value, ws, hy, us);
            GetOnlyAlphaNumeric(r, ws, hy, us) == r
  {
    GetOnlyAlphaNumericOnlyAllowed(value, ws, hy, us);
    GetOnlyAlphaNumericKeepsClean(GetOnlyAlphaNumeric(value, ws, hy, us), ws, hy, us);
  }

  /** Filtering `kept + dropped + rest`, where the first piece is allowed and the second is not. */
  lemma GetOnlyAlphaNumericPieces(kept: string, dropped: string, rest: string, ws: bool, hy: bool, us: bool)
    requires forall k :: 0 <= k < |kept| ==> IsKept(kept[k], ws, hy, us)
    requires forall k :: 0 <= k < |dropped| ==> !IsKept(dropped[k], ws, hy, us)
    ensures GetOnlyAlphaNumeric(kept + dropped + rest, ws, hy, us) == kept + GetOnlyAlphaNumeric(rest, ws, hy, us)
  {
    GetOnlyAlphaNumericAppend(kept + dropped, rest, ws, hy, us);
    GetOnlyAlphaNumericAppend(kept, dropped, ws, hy, us);
    GetOnlyAlphaNumericKeepsClean(kept, ws, hy, us);
    GetOnlyAlphaNumericDropsRejected(dropped, ws, hy, us);
  }

  /** With the defaults, `'hello world @#'` keeps `'hello world '` (the repository's first test). */
  lemma GetOnlyAlphaNumericDefaultsExample()
    ensures GetOnlyAlphaNumeric("hello world " + "@#", true, true, true) == "hello world "
  {
    var kept, dropped := "hello world ", "@#";
    assert forall k :: 0 <= k < |kept| ==> IsKept(kept[k], true, true, true);
    assert forall k :: 0 <= k < |dropped| ==> !IsKept(dropped[k], true, true, true);
    GetOnlyAlphaNumericPieces(kept, dropped, "", true, true, true);
    assert kept + dropped + "" == kept + dropped;
    assert GetOnlyAlphaNumeric("", true, true, true) == "";
  }

  /** `'hello'`, a piece the flags reject, then `'world'`: only the two words stay. */
  lemma GetOnlyAlphaNumericHelloWorld(sep: string, ws: bool, hy: bool, us: bool)
    requires forall k :: 0 <= k < |sep| ==> !IsKept(sep[k], ws, hy, us)
    ensures GetOnlyAlphaNumeric("hello" + sep + "world", ws, hy, us) == "hello" + "world"
  {
    var w1, w2 := "hello", "world";
    assert forall k :: 0 <= k < 5 ==> IsAsciiAlphaNumeric(w1[k]) && IsAsciiAlphaNumeric(w2[k]);
    GetOnlyAlphaNumericKeepsClean(w2, ws, hy, us);
    GetOnlyAlphaNumericPieces(w1, sep, w2, ws, hy, us);
  }

  /** Without whitespace, `'hello world @#'` keeps `'helloworld'` (the second test). */
  lemma GetOnlyAlphaNumericNoWhitespaceExample()
    ensures GetOnlyAlphaNumeric("hello" + " " + "world" + " @#", false, true, true) == "hello" + "world"
  {
    var rest := " @#";
    assert !IsKept(' ', false, true, true) && !IsKept('@', false, true, true) && !IsKept('#', false, true, true);
    GetOnlyAlphaNumericHelloWorld(" ", false, true, true);
    GetOnlyAlphaNumericDropsRejected(rest, false, true, true);
    GetOnlyAlphaNumericAppend("hello" + " " + "world", rest, false, true, true);
  }

  /** Without hyphen and underscore, `'_hello-world'` keeps `'helloworld'` (the third test). */
  lemma GetOnlyAlphaNumericNoHyphenExample()
    ensures GetOnlyAlphaNumeric("_" + "hello" + "-" + "world", true, false, false) == "hello" + "world"
  {
    var words := "hello" + "-" + "world";
    assert !IsKept('_', true, false, false) && !IsKept('-', true, false, false);
    GetOnlyAlphaNumericHelloWorld("-", true, false, false);
    GetOnlyAlphaNumericPieces("", "_", words, true, false, false);
    assert "" + "_" + words == "_" + "hello" + "-" + "world";
  }

  // ---------------------------------------------------------------------------------------
  // checkEmail
  // ---------------------------------------------------------------------------------------

  /** `[\w-]`: an ASCII letter or digit, `'_'` or `'-'`. */
  predicate IsLabelChar(c: char)
  {
    IsAsciiAlphaNumeric(c) || c == '_' || c == '-'
  }

  /** `[\w-]+`. */
  predicate IsLabel(l: string)
  {
    l != "" && forall k :: 0 <= k < |l| ==> IsLabelChar(l[k])
  }

  /** `[a-zA-Z]{2,7}`. */
  predicate IsTopLevel(l: string)
  {
    2 <= |l| <= 7 && forall k :: 0 <= k < |l| ==> 'a' <= l[k] <= 'z' || 'A' <= l[k] <= 'Z'
  }

  /** `[\w-]+(\.[\w-]+)*`: labels separated by single dots. */
  predicate IsLocalPart(l: string)
  {
    var labels := Split(l, '.');
    forall i :: 0 <= i < |labels| ==> IsLabel(labels[i])
  }

  /** `([\w-]+\.)+[a-zA-Z]{2,7}`: at least one label and its dot, then the top-level letters. */
  predicate IsDomain(d: string)
  {
    var labels := Split(d, '.');
    && |labels| >= 2
    && (forall i :: 0 <= i < |labels| - 1 ==> IsLabel(labels[i]))
    && IsTopLevel(labels[|labels| - 1])
  }

  /**
   * `checkEmail(value)`, the language of `^[\w-]+(\.[\w-]+)*@([\w-]+\.)+[a-zA-Z]{2,7}$`:
   * no part of the pattern matches `'@'`, so the address splits at its only `'@'` into a
   * local part and a domain.
   */
  predicate CheckEmail(value: string)
  {
    var halves := Split(value, '@');
    |halves| == 2 && IsLocalPart(halves[0]) && IsDomain(halves[1])
  }

  /** Joining strings without an at sign by dots gives a string without an at sign. */
  lemma {:induction false} NoAtInJoin(parts: seq<string>)
    requires forall i :: 0 <= i < |parts| ==> '@' !in parts[i]
    ensures '@' !in Join(parts, '.')
  {
    if |parts| > 1 {
      NoAtInJoin(parts[1..]);
    }
  }

  /**
   * Building an address from its pieces: the local labels joined by dots, `'@'`, the domain
   * labels and the top-level letters joined by dots. `checkEmail` accepts it exactly when
   * every piece has the shape the pattern asks for.
   */
  lemma CheckEmailBuilt(local: seq<string>, domain: seq<string>, top: string)
    requires local != [] && domain != []
    requires forall i :: 0 <= i < |local| ==> '.' !in local[i] && '@' !in local[i]
    requires forall i :: 0 <= i < |domain| ==> '.' !in domain[i] && '@' !in domain[i]
    requires '.' !in top && '@' !in top
    ensures CheckEmail(Join(local, '.') + "@" + Join(domain + [top], '.')) <==>
              (forall i :: 0 <= i < |local| ==> IsLabel(local[i])) &&
              (forall i :: 0 <= i < |domain| ==> IsLabel(domain[i])) &&
              IsTopLevel(top)
  {
    var l := Join(local, '.');
    var d := Join(domain + [top], '.');
    var all := domain + [top];
    assert forall i :: 0 <= i < |all| ==> '.' !in all[i] && '@' !in all[i];
    NoAtInJoin(local);
    NoAtInJoin(all);
    SplitNoSep(l, '@');
    SplitNoSep(d, '@');
    SplitAppend(l, d, '@');
    assert l + "@" + d == l + ['@'] + d;
    SplitJoin(local, '.');
    SplitJoin(all, '.');
    assert all[..|all| - 1] == domain;
  }

  /**
   * Every accepted address is built that way, from non-empty local labels, non-empty domain
   * labels and the top-level letters; with `CheckEmailBuilt` this describes the accepted
   * addresses exactly.
   */
  lemma CheckEmailParts(value: string) returns (local: seq<string>, domain: seq<string>, top: string)
    requires CheckEmail(value)
    ensures local != [] && domain != []
    ensures forall i :: 0 <= i < |local| ==> IsLabel(local[i])
    ensures forall i :: 0 <= i < |domain| ==> IsLabel(domain[i])
    ensures IsTopLevel(top)
    ensures value == Join(local, '.') + "@" + Join(domain + [top], '.')
  {
    var halves := Split(value, '@');
    assert |halves| == 2 && IsLocalPart(halves[0]) && IsDomain(halves[1]);
    local := Split(halves[0], '.');
    var labels := Split(halves[1], '.');
    domain := labels[..|labels| - 1];
    top := labels[|labels| - 1];
    assert labels == domain + [top];
    JoinSplit(value, '@');
    JoinSplit(halves[0], '.');
    JoinSplit(halves[1], '.');
    assert halves[1..] == [halves[1]];
    assert value == halves[0] + ['@'] + halves[1];
  }

  /** A string with one separator splits at it into the two sides. */
  lemma SplitAtSingle(l: string, d: string, sep: char)
    requires sep !in l && sep !in d
    ensures Split(l + [sep] + d, sep) == [l, d]
  {
    SplitNoSep(l, sep);
    SplitNoSep(d, sep);
    SplitAppend(l, d, sep);
  }

  /** No label holds a dot or an at sign. */
  lemma LabelHasNoSeparator(l: string)
    requires IsLabel(l) || IsTopLevel(l)
    ensures '.' !in l && '@' !in l
  {
    assert forall k :: 0 <= k < |l| ==> l[k] != '.' && l[k] != '@';
  }

  /** A single label is a local part. */
  lemma SingleLabelLocalPart(l: string)
    requires IsLabel(l)
    ensures IsLocalPart(l)
  {
    LabelHasNoSeparator(l);
    SplitNoSep(l, '.');
  }

  /** A label, a dot and the top-level letters make a domain. */
  lemma TwoLabelDomain(name: string, top: string)
    requires IsLabel(name) && IsTopLevel(top)
    ensures IsDomain(name + ['.'] + top)
  {
    LabelHasNoSeparator(name);
    LabelHasNoSeparator(top);
    SplitAtSingle(name, top, '.');
  }

  /** `'test@example.com'` is accepted (the repository's first `checkEmail` test). */
  lemma CheckEmailAcceptsExample()
    ensures CheckEmail("test" + "@" + "example" + "." + "com")
  {
    var local, name, top := "test", "example", "com";
    assert IsLabel(local) && IsLabel(name) && IsTopLevel(top);
    SingleLabelLocalPart(local);
    TwoLabelDomain(name, top);
    var domain := name + ['.'] + top;
    LabelHasNoSeparator(local);
    LabelHasNoSeparator(name);
    LabelHasNoSeparator(top);
    assert '@' !in domain;
    SplitAtSingle(local, domain, '@');
    assert local + ['@'] + domain == "test" + "@" + "example" + "." + "com";
  }

  /** A domain without a dot has no label before the top-level letters. */
  lemma DomainNeedsDot(d: string)
    requires '.' !in d
    ensures !IsDomain(d)
  {
    SplitNoSep(d, '.');
  }

  /** `'test@example'` is refused: its domain has no dot (the second test). */
  lemma CheckEmailRefusesExample()
    ensures !CheckEmail("test" + "@" + "example")
  {
    var l, d := "test", "example";
    assert '@' !in l && '@' !in d && '.' !in d;
    SplitAtSingle(l, d, '@');
    DomainNeedsDot(d);
    assert l + ['@'] + d == "test" + "@" + "example";
  }

  // ---------------------------------------------------------------------------------------
  // getRandomCharset
  // ---------------------------------------------------------------------------------------

  /** The alphabet the random characters come from. */
  const Charset := "abcdefghijklmnopqrstuvwxyz"

  /**
   * `getRandomCharset(size)`: `size` characters, the `i`-th being `charset[picks[i]]`, where
   * `picks[i]` stands for `Math.floor(Math.random() * charset.length)`. A size below one
   * gives the empty string.
   */
  method GetRandomCharset(size: int, picks: seq<nat>) returns (result: string)
    requires |picks| >= size
    requires forall i :: 0 <= i < |picks| ==> picks[i] < |Charset|
    ensures |result| == if size < 0 then 0 else size
    ensures forall i :: 0 <= i < |result| ==> i < |picks| && result[i] == Charset[picks[i]]
    ensures forall i :: 0 <= i < |result| ==> 'a' <= result[i] <= 'z'
  {
    result := "";
    var i := 0;
    while i < size
      invariant 0 <= i <= |picks| && |result| == i
      invariant if size < 0 then i == 0 else i <= size
      invariant forall k :: 0 <= k < i ==> result[k] == Charset[picks[k]] && 'a' <= result[k] <= 'z'
    {
      result := result + [Charset[picks[i]]];
      i := i + 1;
    }
  }
}
