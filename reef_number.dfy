/**
 * `padStartWithZeros` of the reef package (packages/reef/src/number.ts): the decimal text of
 * a number, padded on the left with `'0'` up to a width. The number is a natural number here.
 */
module ReefNumber {

  /** The decimal digit of `d`. */
  function DigitChar(d: nat): (c: char)
    requires d < 10
    ensures '0' <= c <= '9'
  {
    ('0' as int + d) as char
  }

  /** The value of a decimal digit. */
  function DigitValue(c: char): nat
    requires '0' <= c <= '9'
  {
    c as int - '0' as int
  }

  predicate IsDigits(s: string)
  {
    forall k :: 0 <= k < |s| ==> '0' <= s[k] <= '9'
  }

  /** `value.toString()` for a natural number: its decimal digits, most significant first. */
  function NatToString(v: nat): (s: string)
    ensures s != [] && IsDigits(s)
  {
    if v < 10 then [DigitChar(v)] else NatToString(v / 10) + [DigitChar(v % 10)]
  }

  /** The number a string of decimal digits stands for; leading zeros add nothing. */
  function ParseDecimal(s: string): nat
    requires IsDigits(s)
  {
    if s == [] then 0 else ParseDecimal(s[..|s| - 1]) * 10 + DigitValue(s[|s| - 1])
  }

  /** `n` copies of `c`. */
  function Repeat(c: char, n: nat): (r: string)
    ensures |r| == n && forall k :: 0 <= k < n ==> r[k] == c
  {
    if n == 0 then [] else Repeat(c, n - 1) + [c]
  }

  /** `s.padStart(width, '0')`: zeros in front up to `width`; a longer text stays as it is. */
  function PadStart(s: string, width: int): string
  {
    if width <= |s| then s else Repeat('0', width - |s|) + s
  }

  /** `padStartWithZeros(value, pads)`; `pads` defaults to 2. */
  function PadStartWithZeros(value: nat, pads: int): (r: string)
    ensures |r| >= pads
    ensures IsDigits(r) && ParseDecimal(r) == value
  {
    NatToStringRoundTrip(value);
    if pads > |NatToString(value)| then LeadingZerosIgnored(pads - |NatToString(value)|, NatToString(value)); PadStart(NatToString(value), pads)
    else PadStart(NatToString(value), pads)
  }

  /** The decimal text reads back as the number, and has no leading zero unless it is `"0"`. */
  lemma {:induction false} NatToStringRoundTrip(v: nat)
    ensures ParseDecimal(NatToString(v)) == v
    ensures NatToString(v)[0] == '0' <==> v == 0
  {
    var s := NatToString(v);
    if v >= 10 {
      NatToStringRoundTrip(v / 10);
      assert s[..|s| - 1] == NatToString(v / 10);
      assert s[0] == NatToString(v / 10)[0];
    }
  }

  /** A decimal numeral: digits, without a leading zero unless it is `"0"`. */
  predicate IsNumeral(s: string)
  {
    s != [] && IsDigits(s) && (s[0] != '0' || |s| == 1)
  }

  /** A numeral is the decimal text of the number it stands for. */
  lemma {:induction false} NumeralRoundTrip(s: string)
    requires IsNumeral(s)
    ensures NatToString(ParseDecimal(s)) == s
    decreases |s|
  {
    var last := s[|s| - 1];
    if |s| == 1 {
      assert s[..0] == [];
      assert NatToString(ParseDecimal(s)) == [DigitChar(DigitValue(last))];
    } else {
      var front := s[..|s| - 1];
      assert front[0] == s[0];
      NumeralRoundTrip(front);
      var p := ParseDecimal(front);
      NatToStringRoundTrip(p);
      assert p != 0;
      var v := p * 10 + DigitValue(last);
      assert v / 10 == p && v % 10 == DigitValue(last);
      assert NatToString(v) == NatToString(p) + [DigitChar(DigitValue(last))];
      assert s == front + [last];
    }
  }

  /** Zeros in front do not change the number a digit string stands for. */
  lemma {:induction false} LeadingZerosIgnored(z: nat, s: string)
    requires IsDigits(s)
    ensures IsDigits(Repeat('0', z) + s)
    ensures ParseDecimal(Repeat('0', z) + s) == ParseDecimal(s)
    decreases |s|
  {
    var t := Repeat('0', z) + s;
    if s == [] {
      assert t == Repeat('0', z);
      ZerosParseToZero(z);
    } else {
      LeadingZerosIgnored(z, s[..|s| - 1]);
      assert t[..|t| - 1] == Repeat('0', z) + s[..|s| - 1];
    }
  }

  lemma {:induction false} ZerosParseToZero(z: nat)
    ensures ParseDecimal(Repeat('0', z)) == 0
  {
    if z > 0 {
      ZerosParseToZero(z - 1);
      assert Repeat('0', z)[..z - 1] == Repeat('0', z - 1);
    }
  }

  /**
   * The padded text is the decimal text with zeros in front: it is `pads` long when the
   * number has fewer digits, and exactly the decimal text otherwise; it reads back as the
   * number.
   */
  lemma PadStartWithZerosShape(value: nat, pads: int)
    ensures var digits := NatToString(value);
            var r := PadStartWithZeros(value, pads);
            && |r| == (if pads <= |digits| then |digits| else pads)
            && r[|r| - |digits|..] == digits
            && (forall k :: 0 <= k < |r| - |digits| ==> r[k] == '0')
            && IsDigits(r)
            && ParseDecimal(r) == value
  {
    var digits := NatToString(value);
    NatToStringRoundTrip(value);
    if pads > |digits| {
      var z := Repeat('0', pads - |digits|);
      LeadingZerosIgnored(pads - |digits|, digits);
      assert (z + digits)[|z|..] == digits;
    }
  }

  /** `padStartWithZeros(123, 5)` is `'00123'`; with the default width, `7` is `'07'`. */
  lemma PadStartWithZerosExamples()
    ensures PadStartWithZeros(123, 5) == "00123"
    ensures PadStartWithZeros(7, 2) == "07"
  {
    assert NatToString(123) == NatToString(12) + ['3'];
    assert NatToString(12) == "12";
    assert Repeat('0', 2) == "00";
    assert Repeat('0', 1) == "0";
  }
}
