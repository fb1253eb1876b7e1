/** The conversions between the form's numeric age and text: the decimal
    string JavaScript gives an integral number (`age.toString()`, and the
    implicit conversion when a regular expression tests a number), the
    functions `parseInt(text, 10)` and `parseInt(text, 10) || 0`, and the
    test `/^\d{2}$/`. */
module NumberText {

  import opened Options
  import opened Chars

  function DigitChar(d: nat): (c: char)
    requires d < 10
    ensures IsDigit(c)
  {
    ('0' as int + d) as char
  }

  function DigitValue(c: char): (d: nat)
    requires IsDigit(c)
    ensures d < 10 && DigitChar(d) == c
  {
    c as int - '0' as int
  }

  predicate AllDigits(s: string) {
    forall i | 0 <= i < |s| :: IsDigit(s[i])
  }

  /** The decimal numeral of `n`, without leading zeros. */
  function NatToDecimal(n: nat): (s: string)
    ensures |s| >= 1 && AllDigits(s)
    ensures |s| > 1 ==> s[0] != '0'
  {
    if n < 10 then [DigitChar(n)] else NatToDecimal(n / 10) + [DigitChar(n % 10)]
  }

  /** `Number.prototype.toString()` of an integral number: a minus sign for
      negative values, then the decimal numeral of the magnitude. */
  function ToDecimalString(n: int): (s: string)
    ensures s != [] && (IsDigit(s[0]) || s[0] == '-')
  {
    if n < 0 then "-" + NatToDecimal(-n) else NatToDecimal(n)
  }

  /** `/^\d{2}$/.test(s)` */
  predicate IsTwoDigitString(s: string) {
    |s| == 2 && IsDigit(s[0]) && IsDigit(s[1])
  }

  /** The longest prefix of `s` made of decimal digits. */
  function DigitPrefix(s: string): (p: string)
    ensures |p| <= |s| && p == s[..|p|] && AllDigits(p)
    ensures |p| < |s| ==> !IsDigit(s[|p|])
  {
    if s != [] && IsDigit(s[0]) then [s[0]] + DigitPrefix(s[1..]) else []
  }

  /** The number a string of decimal digits denotes (most significant first). */
  function DigitsValue(ds: string): nat
    requires AllDigits(ds)
  {
    if ds == [] then 0 else DigitsValue(ds[..|ds| - 1]) * 10 + DigitValue(ds[|ds| - 1])
  }

  /** `parseInt(s, 10)` on integers, following section 19.2.5 of ECMA-262:
      leading whitespace is skipped, one optional sign is taken, then the
      longest run of decimal digits; no digits at all gives `NaN` (`None`). */
  function ParseInt(s: string): Option<int> {
    var t := TrimStart(s);
    var sign := if t != [] && t[0] == '-' then -1 else 1;
    var rest := if t != [] && (t[0] == '-' || t[0] == '+') then t[1..] else t;
    var digits := DigitPrefix(rest);
    if digits == [] then None else Some(sign * DigitsValue(digits))
  }

  /** The age field's `onChangeText` conversion, `parseInt(text, 10) || 0`:
      `NaN` (and negative zero) become 0. */
  function AgeFromText(text: string): int {
    match ParseInt(text)
    case None => 0
    case Some(v) => v
  }

  /** The numeral of `n` has one digit exactly below 10 and two digits exactly
      from 10 to 99. */
  lemma {:induction false} DecimalLength(n: nat)
    ensures |NatToDecimal(n)| == 1 <==> n < 10
    ensures |NatToDecimal(n)| == 2 <==> 10 <= n <= 99
  {
    if n >= 10 {
      DecimalLength(n / 10);
    }
  }

  /** The age format test: the decimal string of an integer is two digits
      exactly when the integer lies in 10..99. */
  lemma TwoDigitsIff(n: int)
    ensures IsTwoDigitString(ToDecimalString(n)) <==> 10 <= n <= 99
  {
    if n >= 0 {
      DecimalLength(n);
    }
  }

  /** Reading a numeral back gives the number it was made from. */
  lemma {:induction false} DigitsValueOfDecimal(n: nat)
    ensures DigitsValue(NatToDecimal(n)) == n
  {
    if n >= 10 {
      var s := NatToDecimal(n);
      assert s[..|s| - 1] == NatToDecimal(n / 10);
      DigitsValueOfDecimal(n / 10);
    }
  }

  /** The digit prefix of a string of digits is the whole string. */
  lemma DigitPrefixOfDigits(s: string)
    requires AllDigits(s)
    ensures DigitPrefix(s) == s
  {
  }

  /** `parseInt(String(n), 10) == n` for every integer `n`. */
  lemma ParseIntOfDecimal(n: int)
    ensures ParseInt(ToDecimalString(n)) == Some(n)
  {
    if n < 0 {
      ParseIntOfNegativeDecimal(n);
    } else {
      var d := NatToDecimal(n);
      assert ToDecimalString(n) == d;
      ParseIntOfNumeral(d);
      DigitsValueOfDecimal(n);
    }
  }

  /** The negative case of `ParseIntOfDecimal`. */
  lemma ParseIntOfNegativeDecimal(n: int)
    requires n < 0
    ensures ParseInt(ToDecimalString(n)) == Some(n)
  {
    var d := NatToDecimal(-n);
    assert ToDecimalString(n) == "-" + d;
    ParseIntOfNegativeNumeral(d);
    DigitsValueOfDecimal(-n);
    assert DigitsValue(d) == -n;
  }

  /** A numeral parses to its value. */
  lemma ParseIntOfNumeral(d: string)
    requires d != [] && AllDigits(d)
    ensures ParseInt(d) == Some(DigitsValue(d) as int)
  {
    TrimStartOfUnpadded(d);
    DigitPrefixOfDigits(d);
  }

  /** A numeral after a minus sign parses to its value negated. */
  lemma ParseIntOfNegativeNumeral(d: string)
    requires d != [] && AllDigits(d)
    ensures ParseInt("-" + d) == Some(-(DigitsValue(d) as int))
  {
    var s := "-" + d;
    assert s[0] == '-' && s[1..] == d;
    TrimStartOfUnpadded(s);
    DigitPrefixOfDigits(d);
    assert DigitPrefix(TrimStart(s)[1..]) == d;
  }

  /** The age text field shows `age.toString()` and parses edits back with
      `parseInt(text, 10) || 0`; an unedited field gives back the same age. */
  lemma AgeTextRoundTrip(n: int)
    ensures AgeFromText(ToDecimalString(n)) == n
  {
    ParseIntOfDecimal(n);
  }

  /** Typed text: leading whitespace is skipped, one sign is taken, and the
      digits up to the first non-digit are read; whatever follows them is
      ignored. */
  lemma ParseIntOfTypedText(w: string, sign: string, d: string, rest: string)
    requires forall i | 0 <= i < |w| :: IsWhitespace(w[i])
    requires sign == "" || sign == "+" || sign == "-"
    requires d != [] && AllDigits(d)
    requires rest == [] || !IsDigit(rest[0])
    ensures ParseInt(w + (sign + (d + rest))) ==
              Some(if sign == "-" then -(DigitsValue(d) as int) else DigitsValue(d) as int)
    ensures AgeFromText(w + (sign + (d + rest))) ==
              if sign == "-" then -(DigitsValue(d) as int) else DigitsValue(d) as int
  {
    var x := sign + (d + rest);
    ParseIntOfSignedDigits(sign, d, rest);
    assert x != [] && !IsWhitespace(x[0]);
    TrimStartAfterWhitespace(w, x);
    ParseIntSkipsWhitespace(w + x, x);
  }

  /** `parseInt` depends only on the text after its leading whitespace. */
  lemma ParseIntSkipsWhitespace(s: string, x: string)
    requires TrimStart(s) == x && (x == [] || !IsWhitespace(x[0]))
    ensures ParseInt(s) == ParseInt(x)
  {
    if x != [] {
      TrimStartOfUnpadded(x);
    }
  }

  /** Text with no leading whitespace: an optional sign, digits, then
      anything not starting with a digit. */
  lemma ParseIntOfSignedDigits(sign: string, d: string, rest: string)
    requires sign == "" || sign == "+" || sign == "-"
    requires d != [] && AllDigits(d)
    requires rest == [] || !IsDigit(rest[0])
    ensures ParseInt(sign + (d + rest)) ==
              Some(if sign == "-" then -(DigitsValue(d) as int) else DigitsValue(d) as int)
  {
    DigitPrefixBeforeNonDigit(d, rest);
    if sign == "" {
      assert sign + (d + rest) == d + rest;
      ParseIntOfDigitsThen(d + rest, d);
    } else {
      var c := sign[0];
      assert sign == [c];
      ParseIntAfterSign(c, d + rest, d);
    }
  }

  /** Digits first: their value. */
  lemma ParseIntOfDigitsThen(t: string, d: string)
    requires t != [] && IsDigit(t[0]) && DigitPrefix(t) == d
    ensures ParseInt(t) == Some(DigitsValue(d) as int)
  {
    TrimStartOfUnpadded(t);
  }

  /** A sign first: the value of the digits after it, negated after `-`. */
  lemma ParseIntAfterSign(c: char, t: string, d: string)
    requires c == '+' || c == '-'
    requires DigitPrefix(t) == d && d != []
    ensures ParseInt([c] + t) == Some(if c == '-' then -(DigitsValue(d) as int) else DigitsValue(d) as int)
  {
    var x := [c] + t;
    assert x[0] == c && x[1..] == t;
    TrimStartOfUnpadded(x);
    var v := DigitsValue(d) as int;
    if c == '-' {
      assert ParseInt(x) == Some(-1 * v);
    } else {
      assert ParseInt(x) == Some(1 * v);
    }
  }

  /** Whitespace in front of a string that does not start with whitespace is
      exactly what `TrimStart` removes. */
  lemma {:induction false} TrimStartAfterWhitespace(w: string, x: string)
    requires forall i | 0 <= i < |w| :: IsWhitespace(w[i])
    requires x != [] && !IsWhitespace(x[0])
    ensures TrimStart(w + x) == x
  {
    if w != [] {
      assert (w + x)[1..] == w[1..] + x;
      TrimStartAfterWhitespace(w[1..], x);
    }
  }

  /** The digit prefix of digits followed by a non-digit is those digits. */
  lemma {:induction false} DigitPrefixBeforeNonDigit(d: string, rest: string)
    requires AllDigits(d)
    requires rest == [] || !IsDigit(rest[0])
    ensures DigitPrefix(d + rest) == d
  {
    if d != [] {
      assert (d + rest)[1..] == d[1..] + rest;
      DigitPrefixBeforeNonDigit(d[1..], rest);
    }
  }

  /** Text with no digit in it gives 0. */
  lemma AgeFromTextWithoutDigits(text: string)
    requires forall i | 0 <= i < |text| :: !IsDigit(text[i])
    ensures AgeFromText(text) == 0
  {
    var t := TrimStart(text);
    var rest := if t != [] && (t[0] == '-' || t[0] == '+') then t[1..] else t;
    if rest != [] {
      assert rest[0] in text;
    }
  }
}
