/** Python's `int(s)` and `float(s)` applied to a string, as `check_type` uses
    them: each either yields a value or raises `ValueError`, which is `None`
    here. The grammar accepted is the ASCII part of Python's: surrounding
    whitespace, an optional sign, ASCII digits, and for `float` an optional
    fraction, an optional exponent and the words `inf`, `infinity` and `nan`. */
module Numerals {
  import opened Wrappers
  import Text

  /** The ASCII characters `int` and `float` strip from both ends of their
      argument: space, tab, line feed, vertical tab, form feed and carriage
      return. The ASCII separators 0x1C-0x1F, which `str.strip` would remove,
      are not among them: `int("\x1c5")` raises `ValueError`. */
  const Whitespace: set<char> := {' ', '\t', '\n', '\U{0B}', '\U{0C}', '\r'}

  /** The interpreter's default limit on the number of digits `int` converts
      from a string; a longer digit string raises `ValueError`. */
  const MaxStrDigits: nat := 4300

  /** The value of a `float` literal, kept exact: `Finite(m, e)` stands for
      m * 10^e. Binary rounding and overflow to infinity are not modelled. */
  datatype Decimal = Finite(mantissa: int, exponent: int) | Infinity(negative: bool) | NotANumber

  predicate IsDigit(c: char)
  {
    '0' <= c <= '9'
  }

  predicate AllDigits(s: string)
  {
    forall i :: 0 <= i < |s| ==> IsDigit(s[i])
  }

  function DigitValue(c: char): (d: nat)
    requires IsDigit(c)
    ensures d < 10
  {
    (c as int) - ('0' as int)
  }

  function DigitChar(d: nat): (c: char)
    requires d < 10
    ensures IsDigit(c) && DigitValue(c) == d
  {
    ('0' as int + d) as char
  }

  /** The number a string of decimal digits denotes (leading zeros allowed). */
  function DigitsValue(s: string): nat
    requires AllDigits(s)
  {
    if s == [] then 0 else 10 * DigitsValue(s[..|s| - 1]) + DigitValue(s[|s| - 1])
  }

  /** The canonical decimal digits of a natural number, as `str` writes them. */
  function NatToDigits(n: nat): (s: string)
    ensures AllDigits(s) && |s| > 0
  {
    if n < 10 then [DigitChar(n)] else NatToDigits(n / 10) + [DigitChar(n % 10)]
  }

  /** `str(n)` for an integer `n`. */
  function IntToString(n: int): string
  {
    if n < 0 then "-" + NatToDigits(-n) else NatToDigits(n)
  }

  function Signed(negative: bool, n: int): int
  {
    if negative then -n else n
  }

  /** Splits off one leading `+` or `-`; the flag tells whether it was `-`. */
  function SplitSign(s: string): (bool, string)
  {
    if s != [] && (s[0] == '+' || s[0] == '-') then (s[0] == '-', s[1..]) else (false, s)
  }

  function Trim(s: string): string
  {
    Text.Strip(s, Whitespace)
  }

  /** `int(s)`; `None` where Python raises `ValueError`. */
  function ParseInt(s: string): Option<int>
  {
    var (negative, digits) := SplitSign(Trim(s));
    if digits != [] && AllDigits(digits) && |digits| <= MaxStrDigits then
      Some(Signed(negative, DigitsValue(digits)))
    else
      None
  }

  function AsciiLower(c: char): char
  {
    if 'A' <= c <= 'Z' then (c as int + 32) as char else c
  }

  /** Case-insensitive comparison of `s` with a lower-case ASCII word. */
  predicate MatchesWord(s: string, word: string)
  {
    |s| == |word| && forall i :: 0 <= i < |s| ==> AsciiLower(s[i]) == word[i]
  }

  /** `float(s)`; `None` where Python raises `ValueError`. */
  function ParseFloat(s: string): Option<Decimal>
  {
    var (negative, body) := SplitSign(Trim(s));
    if MatchesWord(body, "inf") || MatchesWord(body, "infinity") then Some(Infinity(negative))
    else if MatchesWord(body, "nan") then Some(NotANumber)
    else ParseFinite(negative, body)
  }

  /** A finite `float` literal without its sign: a mantissa, then optionally
      `e` or `E` and an exponent. */
  function ParseFinite(negative: bool, body: string): Option<Decimal>
  {
    var e := Text.FirstIndex(body, {'e', 'E'});
    if e == |body| then Scaled(negative, ParseMantissa(body), Some(0))
    else Scaled(negative, ParseMantissa(body[..e]), ParseExponent(body[e + 1..]))
  }

  /** The value of a parsed mantissa and exponent; `None` when either failed. */
  function Scaled(negative: bool, mantissa: Option<Mantissa>, exponent: Option<int>): Option<Decimal>
  {
    if mantissa.Some? && exponent.Some? then
      Some(Finite(Signed(negative, mantissa.value.digits), exponent.value - mantissa.value.scale))
    else
      None
  }

  /** The mantissa of a `float` literal: the value of all its digits with the
      point taken out, and the number of digits after the point. */
  datatype Mantissa = Mantissa(digits: nat, scale: nat)

  /** `digits [. digits]` or `. digits`, with at least one digit. */
  function ParseMantissa(mantissa: string): Option<Mantissa>
  {
    var p := Text.FirstIndex(mantissa, {'.'});
    var whole := mantissa[..p];
    var fraction := if p < |mantissa| then mantissa[p + 1..] else [];
    if AllDigits(whole) && AllDigits(fraction) && |whole| + |fraction| > 0 then
      Some(Mantissa(DigitsValue(whole + fraction), |fraction|))
    else
      None
  }

  /** An optional sign followed by at least one digit. */
  function ParseExponent(text: string): Option<int>
  {
    var (negative, digits) := SplitSign(text);
    if digits != [] && AllDigits(digits) then Some(Signed(negative, DigitsValue(digits))) else None
  }

  // ---------------------------------------------------------------------------
  // Properties

  /** The digits `str` writes for `n` read back as `n`. */
  lemma {:induction false} DigitsValueOfNatToDigits(n: nat)
    ensures DigitsValue(NatToDigits(n)) == n
  {
    var s := NatToDigits(n);
    if n >= 10 {
      assert s[..|s| - 1] == NatToDigits(n / 10);
      DigitsValueOfNatToDigits(n / 10);
    }
  }

  /** A string with neither end in `Whitespace` is left alone by `Trim`. */
  lemma TrimNoPadding(s: string)
    requires s == [] || (s[0] !in Whitespace && s[|s| - 1] !in Whitespace)
    ensures Trim(s) == s
  {
    assert Text.RStrip(s, Whitespace) == s;
  }

  /** Whitespace around the text does not change what `Trim` keeps. */
  lemma TrimPadding(w1: string, s: string, w2: string)
    requires Text.AllIn(w1, Whitespace) && Text.AllIn(w2, Whitespace)
    ensures Trim(w1 + s + w2) == Trim(s)
  {
    Text.RStripAppend(w1 + s, w2, Whitespace);
    var r := Text.RStrip(s, Whitespace);
    // RStrip(w1 + s) keeps w1 followed by what RStrip(s) keeps, unless s
    // strips away entirely, in which case the whole of w1 + s strips away.
    if r == [] {
      assert Text.AllIn(w1 + s, Whitespace) by {
        forall i | 0 <= i < |w1 + s| ensures (w1 + s)[i] in Whitespace {
          if i >= |w1| { assert (w1 + s)[i] == s[i - |w1|]; }
        }
      }
      Text.RStripUnique(w1 + s, Whitespace, []);
    } else {
      forall i | |w1 + r| <= i < |w1 + s| ensures (w1 + s)[i] in Whitespace {
        assert (w1 + s)[i] == s[i - |w1|];
      }
      assert (w1 + r)[|w1 + r| - 1] == r[|r| - 1];
      Text.RStripUnique(w1 + s, Whitespace, w1 + r);
      Text.LStripPrepend(w1, r, Whitespace);
    }
  }

  /** `int(str(n)) == n`, for every integer within the digit limit. */
  lemma ParseIntOfString(n: int)
    requires |NatToDigits(if n < 0 then -n else n)| <= MaxStrDigits
    ensures ParseInt(IntToString(n)) == Some(n)
  {
    var m := if n < 0 then -n else n;
    var s := IntToString(n);
    TrimNoPadding(s);
    DigitsValueOfNatToDigits(m);
    if n < 0 {
      assert s[1..] == NatToDigits(m);
    }
  }

  /** Surrounding whitespace never makes `int` fail or change its value. */
  lemma ParseIntIgnoresPadding(w1: string, s: string, w2: string)
    requires Text.AllIn(w1, Whitespace) && Text.AllIn(w2, Whitespace)
    ensures ParseInt(w1 + s + w2) == ParseInt(s)
  {
    TrimPadding(w1, s, w2);
  }

  /** Surrounding whitespace never makes `float` fail or change its value. */
  lemma ParseFloatIgnoresPadding(w1: string, s: string, w2: string)
    requires Text.AllIn(w1, Whitespace) && Text.AllIn(w2, Whitespace)
    ensures ParseFloat(w1 + s + w2) == ParseFloat(s)
  {
    TrimPadding(w1, s, w2);
  }

  /** A character that is neither a digit, nor whitespace, nor a sign makes
      `int` fail: a decimal point (`"2.5"`), a letter (`"abc"`), an exponent. */
  lemma ParseIntRejectsForeignChar(s: string, i: nat)
    requires i < |s|
    requires !IsDigit(s[i]) && s[i] !in Whitespace && s[i] != '+' && s[i] != '-'
    ensures ParseInt(s) == None
  {
    var j := SignFreeCharKept(s, i);
    assert !IsDigit(SplitSign(Trim(s)).1[j]);
  }

  /** A character that is neither whitespace nor a sign is still there once
      `Trim` and `SplitSign` are done: it comes out at index `j`. */
  lemma SignFreeCharKept(s: string, i: nat) returns (j: nat)
    requires i < |s| && s[i] !in Whitespace && s[i] != '+' && s[i] != '-'
    ensures j < |SplitSign(Trim(s)).1| && SplitSign(Trim(s)).1[j] == s[i]
  {
    Text.StripKeeps(s, Whitespace, i);
    var t := Trim(s);
    var k :| 0 <= k < |t| && t[k] == s[i];
    if t[0] == '+' || t[0] == '-' {
      j := k - 1;
      assert t[1..][j] == t[k];
    } else {
      j := k;
    }
  }

  /** The empty string and a blank field are not integers. */
  lemma ParseIntRejectsBlank(s: string)
    requires Text.AllIn(s, Whitespace)
    ensures ParseInt(s) == None
  {
    Text.RStripUnique(s, Whitespace, []);
  }

  /** The empty string and a blank field are not floats. */
  lemma ParseFloatRejectsBlank(s: string)
    requires Text.AllIn(s, Whitespace)
    ensures ParseFloat(s) == None
  {
    Text.RStripUnique(s, Whitespace, []);
  }

  /** A digit string longer than the interpreter's limit makes `int` fail. */
  lemma ParseIntRejectsLongDigits(s: string)
    requires AllDigits(s) && |s| > MaxStrDigits
    ensures ParseInt(s) == None
  {
    TrimNoPadding(s);
  }

  /** When the unsigned body is no special word, `float` reads it as a
      finite literal. */
  lemma ParseFloatIsFinite(s: string, negative: bool, body: string, k: nat)
    requires SplitSign(Trim(s)) == (negative, body)
    requires k < |body| && (IsDigit(body[k]) || body[k] == '.')
    ensures ParseFloat(s) == ParseFinite(negative, body)
  {
    NotSpecialWord(body, k);
  }

  /** A word made of digits and a point is none of `inf`, `infinity`, `nan`. */
  lemma NotSpecialWord(body: string, k: nat)
    requires k < |body| && (IsDigit(body[k]) || body[k] == '.')
    ensures !MatchesWord(body, "inf") && !MatchesWord(body, "infinity") && !MatchesWord(body, "nan")
  {
  }

  /** No `e` or `E` in `s`: the whole of it is the mantissa. */
  lemma NoExponentMark(s: string)
    requires forall i :: 0 <= i < |s| ==> s[i] != 'e' && s[i] != 'E'
    ensures Text.FirstIndex(s, {'e', 'E'}) == |s|
  {
  }

  /** A plain digit string is a finite literal with exponent 0. */
  lemma ParseFiniteOfDigits(negative: bool, digits: string)
    requires digits != [] && AllDigits(digits)
    ensures ParseFinite(negative, digits) == Some(Finite(Signed(negative, DigitsValue(digits)), 0))
  {
    NoExponentMark(digits);
    assert digits[..|digits|] == digits;
    assert Text.FirstIndex(digits, {'.'}) == |digits|;
    assert digits + [] == digits;
  }

  /** Every string `int` accepts, `float` accepts with the same value. */
  lemma ParseFloatOfInteger(s: string, n: int)
    requires ParseInt(s) == Some(n)
    ensures ParseFloat(s) == Some(Finite(n, 0))
  {
    var (negative, body) := SplitSign(Trim(s));
    assert body != [] && AllDigits(body) && n == Signed(negative, DigitsValue(body));
    ParseFloatIsFinite(s, negative, body, 0);
    ParseFiniteOfDigits(negative, body);
  }

  /** The mantissa `whole . fraction`. */
  lemma ParseMantissaOfPointNumeral(whole: string, fraction: string)
    requires AllDigits(whole) && AllDigits(fraction) && |whole| + |fraction| > 0
    ensures ParseMantissa(whole + "." + fraction) == Some(Mantissa(DigitsValue(whole + fraction), |fraction|))
  {
    var mantissa := whole + "." + fraction;
    assert Text.FirstIndex(mantissa, {'.'}) == |whole| by {
      forall i | 0 <= i < |whole| ensures mantissa[i] !in {'.'} { assert mantissa[i] == whole[i]; }
      assert mantissa[|whole|] == '.';
    }
    assert mantissa[..|whole|] == whole;
    assert mantissa[|whole| + 1..] == fraction;
  }

  /** A point numeral has no exponent mark. */
  lemma PointNumeralHasNoExponent(whole: string, fraction: string)
    requires AllDigits(whole) && AllDigits(fraction)
    ensures Text.FirstIndex(whole + "." + fraction, {'e', 'E'}) == |whole + "." + fraction|
  {
    var body := whole + "." + fraction;
    forall i | 0 <= i < |body| ensures body[i] != 'e' && body[i] != 'E' {
      if i < |whole| { assert body[i] == whole[i]; }
      else if i > |whole| { assert body[i] == fraction[i - |whole| - 1]; }
    }
    NoExponentMark(body);
  }

  /** The unsigned body `whole . fraction` of a point numeral. */
  lemma ParseFiniteOfPointNumeral(negative: bool, whole: string, fraction: string)
    requires AllDigits(whole) && AllDigits(fraction) && |whole| + |fraction| > 0
    ensures ParseFinite(negative, whole + "." + fraction)
         == Some(Finite(Signed(negative, DigitsValue(whole + fraction)), -|fraction|))
  {
    PointNumeralHasNoExponent(whole, fraction);
    ParseMantissaOfPointNumeral(whole, fraction);
    ParseFiniteWithoutExponent(negative, whole + "." + fraction, DigitsValue(whole + fraction), |fraction|);
  }

  /** A body without an exponent is its mantissa, signed and scaled. */
  lemma ParseFiniteWithoutExponent(negative: bool, body: string, digits: nat, scale: nat)
    requires Text.FirstIndex(body, {'e', 'E'}) == |body|
    requires ParseMantissa(body) == Some(Mantissa(digits, scale))
    ensures ParseFinite(negative, body) == Some(Finite(Signed(negative, digits), -(scale as int)))
  {
  }

  /** A point numeral neither starts nor ends with whitespace. */
  lemma PointNumeralEnds(negative: bool, whole: string, fraction: string)
    requires AllDigits(whole) && AllDigits(fraction)
    ensures var s := (if negative then "-" else "") + whole + "." + fraction;
      s[0] !in Whitespace && s[|s| - 1] !in Whitespace
  {
    var s := (if negative then "-" else "") + whole + "." + fraction;
    if fraction == [] { assert s[|s| - 1] == '.'; } else { assert s[|s| - 1] == fraction[|fraction| - 1]; }
    if !negative && whole != [] { assert s[0] == whole[0]; }
  }

  /** A point numeral carries no padding; its sign is the optional `-`. */
  lemma PointNumeralSign(negative: bool, whole: string, fraction: string)
    requires AllDigits(whole) && AllDigits(fraction)
    ensures SplitSign(Trim((if negative then "-" else "") + whole + "." + fraction))
         == (negative, whole + "." + fraction)
  {
    var body := whole + "." + fraction;
    var s := (if negative then "-" else "") + whole + "." + fraction;
    PointNumeralEnds(negative, whole, fraction);
    TrimNoPadding(s);
    if negative {
      assert s[1..] == body;
    } else {
      assert s == body;
      if whole != [] { assert s[0] == whole[0]; }
    }
  }

  /** A point numeral `[sign] whole . fraction` reads as its digits with the
      point taken out, scaled by 10^-|fraction|. */
  lemma ParseFloatOfPointNumeral(negative: bool, whole: string, fraction: string)
    requires AllDigits(whole) && AllDigits(fraction) && |whole| + |fraction| > 0
    ensures ParseFloat((if negative then "-" else "") + whole + "." + fraction)
         == Some(Finite(Signed(negative, DigitsValue(whole + fraction)), -|fraction|))
  {
    var body := whole + "." + fraction;
    var s := (if negative then "-" else "") + whole + "." + fraction;
    PointNumeralSign(negative, whole, fraction);
    assert body[|whole|] == '.';
    ParseFloatIsFinite(s, negative, body, |whole|);
    ParseFiniteOfPointNumeral(negative, whole, fraction);
  }

  /** An optionally signed digit string within the limit is an integer: the
      value of its digits, negated after a `-`. */
  lemma ParseIntOfDigits(sign: string, digits: string)
    requires sign == "" || sign == "+" || sign == "-"
    requires digits != [] && AllDigits(digits) && |digits| <= MaxStrDigits
    ensures ParseInt(sign + digits) == Some(Signed(sign == "-", DigitsValue(digits)))
  {
    SignedDigitsEnds(sign, digits);
    TrimNoPadding(sign + digits);
    SplitSignOfSigned(sign, digits);
  }

  /** `SplitSign` takes the sign back off a signed digit string. */
  lemma SplitSignOfSigned(sign: string, digits: string)
    requires sign == "" || sign == "+" || sign == "-"
    requires digits != [] && AllDigits(digits)
    ensures SplitSign(sign + digits) == (sign == "-", digits)
  {
    var s := sign + digits;
    if sign == "" {
      assert s == digits;
    } else {
      assert s[1..] == digits;
    }
  }

  /** A signed digit string starts with a sign or a digit and ends with a
      digit, so neither end is whitespace. */
  lemma SignedDigitsEnds(sign: string, digits: string)
    requires sign == "" || sign == "+" || sign == "-"
    requires digits != [] && AllDigits(digits)
    ensures (sign + digits)[0] !in Whitespace
    ensures (sign + digits)[|sign + digits| - 1] !in Whitespace
  {
    var s := sign + digits;
    assert IsDigit(s[|s| - 1]) by { assert s[|s| - 1] == digits[|digits| - 1]; }
    if sign == "" {
      assert s[0] == digits[0];
    } else {
      assert s[0] == sign[0];
    }
  }

  /** A numeral with its point at position k is a float: its digits without
      the point, scaled by 10^-(number of digits after the point). */
  lemma ParseFloatOfPointAt(s: string, k: nat)
    requires k < |s| && s[k] == '.' && |s| > 1
    requires AllDigits(s[..k]) && AllDigits(s[k + 1..])
    ensures ParseFloat(s) == Some(Finite(DigitsValue(s[..k] + s[k + 1..]), -(|s| - k - 1)))
  {
    var whole, fraction := s[..k], s[k + 1..];
    assert s == "" + whole + "." + fraction;
    ParseFloatOfPointNumeral(false, whole, fraction);
  }

  /** The characters a `float` literal can hold besides surrounding
      whitespace: digits, the point, the exponent marks, the signs, and the
      letters of `inf`, `infinity` and `nan` in either case. */
  predicate FloatChar(c: char)
  {
    IsDigit(c) || c in {'.', 'e', 'E', '+', '-'} || AsciiLower(c) in {'i', 'n', 'f', 't', 'y', 'a'}
  }

  /** A character that no `float` literal holds, and that is not whitespace,
      makes `float` fail: `"abc"` is not a float. */
  lemma ParseFloatRejectsForeignChar(s: string, i: nat)
    requires i < |s| && !FloatChar(s[i]) && s[i] !in Whitespace
    ensures ParseFloat(s) == None
  {
    var j := SignFreeCharKept(s, i);
    var (negative, body) := SplitSign(Trim(s));
    NoWordWith(body, j);
    FiniteRejectsForeignChar(negative, body, j);
  }

  /** A body holding a character foreign to `float` is no special word. */
  lemma NoWordWith(body: string, j: nat)
    requires j < |body| && !FloatChar(body[j])
    ensures !MatchesWord(body, "inf") && !MatchesWord(body, "infinity") && !MatchesWord(body, "nan")
  {
  }

  lemma FiniteRejectsForeignChar(negative: bool, body: string, j: nat)
    requires j < |body| && !FloatChar(body[j])
    ensures ParseFinite(negative, body) == None
  {
    var e := Text.FirstIndex(body, {'e', 'E'});
    if e == |body| {
      MantissaRejectsForeignChar(body, j);
    } else if j < e {
      assert body[..e][j] == body[j];
      MantissaRejectsForeignChar(body[..e], j);
    } else {
      assert j != e;
      assert body[e + 1..][j - e - 1] == body[j];
      ExponentRejectsForeignChar(body[e + 1..], j - e - 1);
    }
  }

  lemma MantissaRejectsForeignChar(mantissa: string, j: nat)
    requires j < |mantissa| && !FloatChar(mantissa[j])
    ensures ParseMantissa(mantissa) == None
  {
    var p := Text.FirstIndex(mantissa, {'.'});
    if j < p {
      assert mantissa[..p][j] == mantissa[j];
    } else {
      assert j != p;
      assert mantissa[p + 1..][j - p - 1] == mantissa[j];
    }
  }

  lemma ExponentRejectsForeignChar(text: string, j: nat)
    requires j < |text| && !FloatChar(text[j])
    ensures ParseExponent(text) == None
  {
    if text[0] == '+' || text[0] == '-' {
      assert text[1..][j - 1] == text[j];
    }
  }

  /** `float("abc")` raises `ValueError`: a decimal column holding `abc` is null. */
  lemma FloatRejectsWordSample(word: string)
    requires word == "abc"
    ensures ParseFloat(word) == None
  {
    ParseFloatRejectsForeignChar(word, 1);
  }

  /** The separator 0x1C is not padding: `int("\x1c5")` and `float("\x1c5")`
      raise `ValueError`. */
  lemma SeparatorIsNotPadding(s: string)
    requires s == "\U{1C}5"
    ensures ParseInt(s) == None && ParseFloat(s) == None
  {
    ParseIntRejectsForeignChar(s, 0);
    ParseFloatRejectsForeignChar(s, 0);
  }

  /** `int("2.5")` raises `ValueError`: an integer column holding `2.5` is null. */
  lemma IntRejectsDecimalSample(s: string)
    requires s == "2.5"
    ensures ParseInt(s) == None
  {
    ParseIntRejectsForeignChar(s, 1);
  }

  /** `int("abc")` and `int("")` raise `ValueError` too. */
  lemma IntRejectsWordAndEmptySample(word: string, empty: string)
    requires word == "abc" && empty == ""
    ensures ParseInt(word) == None && ParseInt(empty) == None
  {
    ParseIntRejectsForeignChar(word, 0);
    ParseIntRejectsBlank(empty);
  }

  /** `float("2.5")` is 25 * 10^-1. */
  lemma FloatSample(whole: string, fraction: string)
    requires whole == "2" && fraction == "5"
    ensures ParseFloat("" + whole + "." + fraction) == Some(Finite(25, -1))
  {
    ParseFloatOfPointNumeral(false, whole, fraction);
    TwentyFive();
    assert whole + fraction == "25";
  }

  lemma TwentyFive()
    ensures DigitsValue("25") == 25
  {
  }

  lemma OneHundredFive()
    ensures DigitsValue("105") == 105
  {
    assert NatToDigits(105) == "105";
    DigitsValueOfNatToDigits(105);
  }
}
