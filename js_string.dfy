/**
 * The few pieces of JavaScript's `String.prototype` that the modelled helpers use:
 * `split` on a one-character separator, `join`, `filter(Boolean)` over the parts, `trim`,
 * and `toLowerCase`/`toUpperCase` on the ASCII letters.
 */
module JsString {

  /** `s.split(sep)` for a one-character separator: never empty, and no part holds `sep`. */
  function Split(s: string, sep: char): (parts: seq<string>)
    ensures |parts| >= 1
    ensures forall i :: 0 <= i < |parts| ==> sep !in parts[i]
  {
    if s == [] then [""]
    else
      var rest := Split(s[1..], sep);
      if s[0] == sep then [""] + rest else [[s[0]] + rest[0]] + rest[1..]
  }

  /** `parts.join(sep)`. */
  function Join(parts: seq<string>, sep: char): string
  {
    if |parts| == 0 then ""
    else if |parts| == 1 then parts[0]
    else parts[0] + [sep] + Join(parts[1..], sep)
  }

  /** `parts.filter(Boolean)`: the empty strings are the falsy ones. */
  function NonEmpty(parts: seq<string>): (r: seq<string>)
    ensures forall i :: 0 <= i < |r| ==> r[i] != ""
    ensures |r| <= |parts|
  {
    if parts == [] then []
    else if parts[0] == "" then NonEmpty(parts[1..])
    else [parts[0]] + NonEmpty(parts[1..])
  }

  /** Joining the parts of a split gives back the string. */
  lemma {:induction false} JoinSplit(s: string, sep: char)
    ensures Join(Split(s, sep), sep) == s
  {
    if s != [] {
      JoinSplit(s[1..], sep);
      var rest := Split(s[1..], sep);
      if s[0] != sep && |rest| > 1 {
        assert Join(rest, sep) == rest[0] + [sep] + Join(rest[1..], sep);
      }
    }
  }

  /** A separator in the middle splits the string into the parts of either side. */
  lemma {:induction false} SplitAppend(a: string, b: string, sep: char)
    ensures Split(a + [sep] + b, sep) == Split(a, sep) + Split(b, sep)
  {
    if a == [] {
      assert a + [sep] + b == [sep] + b;
      assert ([sep] + b)[1..] == b;
    } else {
      assert (a + [sep] + b)[1..] == a[1..] + [sep] + b;
      SplitAppend(a[1..], b, sep);
    }
  }

  /** A string without the separator is its own single part. */
  lemma {:induction false} SplitNoSep(s: string, sep: char)
    requires sep !in s
    ensures Split(s, sep) == [s]
  {
    if s != [] {
      SplitNoSep(s[1..], sep);
      assert [s[0]] + s[1..] == s;
    }
  }

  /** Splitting a join gives back the parts, when no part holds the separator. */
  lemma {:induction false} SplitJoin(parts: seq<string>, sep: char)
    requires |parts| >= 1
    requires forall i :: 0 <= i < |parts| ==> sep !in parts[i]
    ensures Split(Join(parts, sep), sep) == parts
  {
    if |parts| == 1 {
      SplitNoSep(parts[0], sep);
    } else {
      SplitJoin(parts[1..], sep);
      SplitAppend(parts[0], Join(parts[1..], sep), sep);
      SplitNoSep(parts[0], sep);
    }
  }

  /** Appending text without a separator only lengthens the last part of a split. */
  lemma {:induction false} SplitAppendNoSep(s: string, q: string, sep: char)
    requires sep !in q
    ensures var parts := Split(s, sep);
            Split(s + q, sep) == parts[..|parts| - 1] + [parts[|parts| - 1] + q]
  {
    if s == [] {
      SplitNoSep(q, sep);
      assert s + q == q;
    } else {
      SplitAppendNoSep(s[1..], q, sep);
      SplitConsAppend(s, q, sep);
    }
  }

  /** The inductive step of `SplitAppendNoSep`: one more character in front. */
  lemma SplitConsAppend(s: string, q: string, sep: char)
    requires s != []
    requires var r := Split(s[1..], sep);
             Split(s[1..] + q, sep) == r[..|r| - 1] + [r[|r| - 1] + q]
    ensures var parts := Split(s, sep);
            Split(s + q, sep) == parts[..|parts| - 1] + [parts[|parts| - 1] + q]
  {
    var r := Split(s[1..], sep);
    var r' := Split(s[1..] + q, sep);
    assert (s + q)[0] == s[0] && (s + q)[1..] == s[1..] + q;
    if s[0] == sep {
      assert Split(s + q, sep) == [""] + r';
      assert Split(s, sep) == [""] + r;
      LastExtended("", r, q);
    } else {
      assert Split(s + q, sep) == [[s[0]] + r'[0]] + r'[1..];
      assert Split(s, sep) == [[s[0]] + r[0]] + r[1..];
      SplitHeadAppend(s[0], r, r', q);
    }
  }

  /** The last part grows by `q` when the first part gains a character in front. */
  lemma SplitHeadAppend(c: char, r: seq<string>, r': seq<string>, q: string)
    requires r != [] && r' == r[..|r| - 1] + [r[|r| - 1] + q]
    ensures var parts := [[c] + r[0]] + r[1..];
            [[c] + r'[0]] + r'[1..] == parts[..|parts| - 1] + [parts[|parts| - 1] + q]
  {
    if |r| == 1 {
      assert [c] + (r[0] + q) == ([c] + r[0]) + q;
    } else {
      assert r'[0] == r[0] && r'[1..] == r[1..][..|r| - 2] + [r[|r| - 1] + q];
      LastExtended([c] + r[0], r[1..], q);
    }
  }

  /** Lengthening the last element of `[head] + rest` lengthens the last element of `rest`. */
  lemma LastExtended(head: string, rest: seq<string>, q: string)
    requires rest != []
    ensures var x := [head] + rest;
            x[..|x| - 1] + [x[|x| - 1] + q] == [head] + (rest[..|rest| - 1] + [rest[|rest| - 1] + q])
  {
    var x := [head] + rest;
    assert x[..|x| - 1] == [head] + rest[..|rest| - 1];
  }

  /** A string that does not end in the separator splits into a last part that is not empty. */
  lemma SplitLastNonEmpty(s: string, sep: char)
    requires s != [] && s[|s| - 1] != sep
    ensures Split(s, sep)[|Split(s, sep)| - 1] != ""
  {
    var front := s[..|s| - 1];
    assert s == front + [s[|s| - 1]];
    SplitAppendNoSep(front, [s[|s| - 1]], sep);
  }

  /** `filter(Boolean)` distributes over concatenation. */
  lemma {:induction false} NonEmptyAppend(x: seq<string>, y: seq<string>)
    ensures NonEmpty(x + y) == NonEmpty(x) + NonEmpty(y)
  {
    if x == [] {
      assert x + y == y;
    } else {
      assert (x + y)[1..] == x[1..] + y;
      NonEmptyAppend(x[1..], y);
    }
  }

  /** `filter(Boolean)` keeps a list of non-empty strings as it is. */
  lemma {:induction false} NonEmptyKeeps(parts: seq<string>)
    requires forall i :: 0 <= i < |parts| ==> parts[i] != ""
    ensures NonEmpty(parts) == parts
  {
    if parts != [] {
      NonEmptyKeeps(parts[1..]);
    }
  }

  /**
   * JavaScript's white space and line terminators, the characters `trim` removes and `\s`
   * matches: tab, line feed, vertical tab, form feed, carriage return, the space separators
   * of Unicode, the byte order mark and the line and paragraph separators.
   */
  predicate IsJsSpace(c: char)
  {
    var n := c as int;
    || (9 <= n <= 13) || n == 32 || n == 0xA0 || n == 0x1680 || (0x2000 <= n <= 0x200A)
    || n == 0x2028 || n == 0x2029 || n == 0x202F || n == 0x205F || n == 0x3000 || n == 0xFEFF
  }

  /** The string without its leading white space. */
  function TrimStart(s: string): string
  {
    if s != [] && IsJsSpace(s[0]) then TrimStart(s[1..]) else s
  }

  /** The string without its trailing white space. */
  function TrimEnd(s: string): string
  {
    if s != [] && IsJsSpace(s[|s| - 1]) then TrimEnd(s[..|s| - 1]) else s
  }

  /** `s.trim()`. */
  function Trim(s: string): string
  {
    TrimEnd(TrimStart(s))
  }

  /**
   * `trim` cuts a run of white space off each end and nothing else: what is left is a slice
   * of the string that neither starts nor ends with white space.
   */
  lemma {:induction false} TrimSlice(s: string) returns (i: nat, j: nat)
    ensures i <= j <= |s| && Trim(s) == s[i..j]
    ensures forall k :: 0 <= k < i ==> IsJsSpace(s[k])
    ensures forall k :: j <= k < |s| ==> IsJsSpace(s[k])
    ensures i < j ==> !IsJsSpace(s[i]) && !IsJsSpace(s[j - 1])
  {
    i := TrimStartSlice(s);
    var t := s[i..];
    var e := TrimEndSlice(t);
    j := i + e;
    assert t[..e] == s[i..j];
  }

  lemma {:induction false} TrimStartSlice(s: string) returns (i: nat)
    ensures i <= |s| && TrimStart(s) == s[i..]
    ensures forall k :: 0 <= k < i ==> IsJsSpace(s[k])
    ensures i < |s| ==> !IsJsSpace(s[i])
  {
    if s != [] && IsJsSpace(s[0]) {
      var i' := TrimStartSlice(s[1..]);
      i := i' + 1;
      assert s[1..][i'..] == s[i..];
    } else {
      i := 0;
    }
  }

  lemma {:induction false} TrimEndSlice(s: string) returns (j: nat)
    ensures j <= |s| && TrimEnd(s) == s[..j]
    ensures forall k :: j <= k < |s| ==> IsJsSpace(s[k])
    ensures 0 < j ==> !IsJsSpace(s[j - 1])
  {
    if s != [] && IsJsSpace(s[|s| - 1]) {
      j := TrimEndSlice(s[..|s| - 1]);
      assert s[..|s| - 1][..j] == s[..j];
    } else {
      j := |s|;
      assert s[..|s|] == s;
    }
  }

  /** A string that neither starts nor ends with white space is its own trim. */
  lemma TrimKeepsClean(s: string)
    requires s != [] ==> !IsJsSpace(s[0]) && !IsJsSpace(s[|s| - 1])
    ensures Trim(s) == s
  {
  }

  /** `toLowerCase` on one character: the ASCII capitals become small letters. */
  function ToLower(c: char): (d: char)
    ensures 'A' <= c <= 'Z' ==> 'a' <= d <= 'z'
    ensures !('A' <= c <= 'Z') ==> d == c
  {
    if 'A' <= c <= 'Z' then (c as int + 32) as char else c
  }

  /** `toUpperCase` on one character: the ASCII small letters become capitals. */
  function ToUpper(c: char): (d: char)
    ensures 'a' <= c <= 'z' ==> 'A' <= d <= 'Z'
    ensures !('a' <= c <= 'z') ==> d == c
  {
    if 'a' <= c <= 'z' then (c as int - 32) as char else c
  }

  /** `s.toLowerCase()`. */
  function LowerCase(s: string): (r: string)
    ensures |r| == |s| && forall k :: 0 <= k < |s| ==> r[k] == ToLower(s[k])
  {
    seq(|s|, k requires 0 <= k < |s| => ToLower(s[k]))
  }
}
