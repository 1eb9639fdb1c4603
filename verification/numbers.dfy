/** `int.Parse(string)` with the default `NumberStyles.Integer`: optional leading and
    trailing white space, an optional leading sign and at least one decimal digit, with the
    value range of a 32-bit signed integer. `FormatInt` is its decimal inverse. */
module Numbers {
  import opened Wrappers
  import Text

  const MinInt32: int := -0x8000_0000
  const MaxInt32: int := 0x7FFF_FFFF

  predicate InInt32(n: int) {
    MinInt32 <= n <= MaxInt32
  }

  /** Why `int.Parse` throws: `FormatException` or `OverflowException`. */
  datatype NumberError = NotANumber | Overflow

  /** The white space `NumberStyles.AllowLeadingWhite`/`AllowTrailingWhite` admit:
      U+0009..U+000D and U+0020 (narrower than `Char.IsWhiteSpace`). */
  predicate IsNumberWhite(c: char) {
    c == ' ' || ('\t' <= c <= '\r')
  }

  predicate IsDigit(c: char) {
    '0' <= c <= '9'
  }

  predicate AllDigits(s: string) {
    forall i :: 0 <= i < |s| ==> IsDigit(s[i])
  }

  /** The value of a decimal digit string, most significant digit first. */
  function DigitsValue(s: string): nat
    requires AllDigits(s)
  {
    if |s| == 0 then 0
    else DigitsValue(s[..|s| - 1]) * 10 + (s[|s| - 1] as int - '0' as int)
  }

  predicate AllNumberWhite(s: string) {
    forall k :: 0 <= k < |s| ==> IsNumberWhite(s[k])
  }

  /** A magnitude with its sign applied. */
  function Signed(negative: bool, magnitude: nat): int {
    if negative then -(magnitude as int) else magnitude
  }

  /** `t` is an optional `+` or `-` followed by at least one digit, and `v` is its value. */
  predicate SignedDigits(t: string, v: int) {
    && |t| > 0
    && if t[0] == '-' || t[0] == '+' then
         && |t| > 1 && AllDigits(t[1..])
         && v == Signed(t[0] == '-', DigitsValue(t[1..]))
       else
         AllDigits(t) && v == DigitsValue(t)
  }

  /** `s[i..j]` is a signed digit string of value `v` with only number white space
      around it. */
  predicate NumberAt(s: string, i: int, j: int, v: int) {
    && 0 <= i <= j <= |s|
    && AllNumberWhite(s[..i]) && AllNumberWhite(s[j..])
    && SignedDigits(s[i..j], v)
  }

  /** The text is the decimal rendering of `v` in the `NumberStyles.Integer` format. */
  ghost predicate Denotes(s: string, v: int) {
    exists i, j :: NumberAt(s, i, j, v)
  }

  /** Parses a decimal integer as `int.Parse` does: surrounding number white space is
      dropped, then the sign and digits are read. */
  function ParseInt(s: string): (r: Result<int, NumberError>)
    ensures r.Success? ==> InInt32(r.value)
  {
    ParseSigned(Text.TrimBy(s, IsNumberWhite))
  }

  /** Reads an optional sign and the digits after it, reporting malformed text before an
      out-of-range value. */
  function ParseSigned(t: string): (r: Result<int, NumberError>)
    ensures r.Success? ==> InInt32(r.value)
  {
    var negative := |t| > 0 && t[0] == '-';
    var digits := if |t| > 0 && (t[0] == '-' || t[0] == '+') then t[1..] else t;
    if |digits| == 0 || !AllDigits(digits) then
      Failure(NotANumber)
    else
      var v := Signed(negative, DigitsValue(digits));
      if InInt32(v) then Success(v) else Failure(Overflow)
  }

  /** The sign-and-digits reader accepts exactly the signed digit strings that fit in 32
      bits, and overflows on the others. */
  lemma SignedMeaning(t: string, v: int)
    ensures ParseSigned(t) == Success(v) <==> SignedDigits(t, v) && InInt32(v)
    ensures SignedDigits(t, v) && !InInt32(v) ==> ParseSigned(t) == Failure(Overflow)
  {
  }

  /** A signed digit string starts with a sign or digit and ends with a digit. */
  lemma SignedDigitsEnds(t: string, v: int)
    requires SignedDigits(t, v)
    ensures !IsNumberWhite(t[0]) && IsDigit(t[|t| - 1])
  {
    if t[0] == '-' || t[0] == '+' {
      assert t[|t| - 1] == t[1..][|t| - 2];
    }
  }

  /** `ParseInt` accepts exactly the texts in the integer format and gives their value;
      a text in the format whose value lies outside the 32-bit range overflows. */
  lemma ParseIntMeaning(s: string, v: int)
    ensures ParseInt(s) == Success(v) <==> Denotes(s, v) && InInt32(v)
    ensures Denotes(s, v) && !InInt32(v) ==> ParseInt(s) == Failure(Overflow)
  {
    if ParseInt(s) == Success(v) {
      ParseIntDenotes(s);
    }
    if Denotes(s, v) {
      DenotesParses(s, v);
    }
  }

  /** `ParseInt` overflows exactly on texts in the integer format whose value lies outside
      the 32-bit range, and reports every other text, and only such text, as not a
      number. */
  lemma ParseIntFailures(s: string)
    ensures ParseInt(s) == Failure(Overflow) <==> exists w :: Denotes(s, w) && !InInt32(w)
    ensures ParseInt(s) == Failure(NotANumber) <==> forall w :: !Denotes(s, w)
  {
    forall w | Denotes(s, w)
      ensures ParseInt(s) == if InInt32(w) then Success(w) else Failure(Overflow)
    {
      DenotesParses(s, w);
    }
    if ParseInt(s).Success? {
      ParseIntDenotes(s);
    } else if ParseInt(s) == Failure(Overflow) {
      ParseIntOverflowDenotes(s);
    }
  }

  /** A text in the integer format parses to its value, or overflows. */
  lemma DenotesParses(s: string, v: int)
    requires Denotes(s, v)
    ensures ParseInt(s) == if InInt32(v) then Success(v) else Failure(Overflow)
  {
    var i, j :| NumberAt(s, i, j, v);
    ParseIntOfNumber(s, i, j, v);
  }

  /** An overflow is only ever reported for a text in the integer format. */
  lemma ParseIntOverflowDenotes(s: string)
    requires ParseInt(s) == Failure(Overflow)
    ensures exists w :: Denotes(s, w) && !InInt32(w)
  {
    var t := Text.TrimBy(s, IsNumberWhite);
    var negative := |t| > 0 && t[0] == '-';
    var digits := if |t| > 0 && (t[0] == '-' || t[0] == '+') then t[1..] else t;
    var v := Signed(negative, DigitsValue(digits));
    assert SignedDigits(t, v);
    var i :| Text.SliceWithin(s, t, i, IsNumberWhite);
    NumberAtSlice(s, t, i, v);
    assert Denotes(s, v);
  }

  /** A successful parse reads a text in the integer format. */
  lemma ParseIntDenotes(s: string)
    requires ParseInt(s).Success?
    ensures Denotes(s, ParseInt(s).value)
  {
    var v := ParseInt(s).value;
    var t := Text.TrimBy(s, IsNumberWhite);
    SignedMeaning(t, v);
    var i :| Text.SliceWithin(s, t, i, IsNumberWhite);
    NumberAtSlice(s, t, i, v);
  }

  /** A signed digit string with only number white space around it is a number in `s`. */
  lemma NumberAtSlice(s: string, t: string, i: int, v: int)
    requires Text.SliceWithin(s, t, i, IsNumberWhite) && SignedDigits(t, v)
    ensures NumberAt(s, i, i + |t|, v)
  {
    var j := i + |t|;
    assert forall k :: 0 <= k < i ==> s[..i][k] == s[k];
    assert forall k :: 0 <= k < |s| - j ==> s[j..][k] == s[j + k];
  }

  /** A text in the integer format parses to its value, or overflows. */
  lemma ParseIntOfNumber(s: string, i: int, j: int, v: int)
    requires NumberAt(s, i, j, v)
    ensures ParseInt(s) == if InInt32(v) then Success(v) else Failure(Overflow)
  {
    var t := s[i..j];
    assert Text.SliceWithin(s, t, i, IsNumberWhite) by {
      assert forall k :: 0 <= k < i ==> s[k] == s[..i][k];
      assert forall k :: j <= k < |s| ==> s[k] == s[j..][k - j];
    }
    SignedDigitsEnds(t, v);
    Text.TrimByIsSlice(s, t, i, IsNumberWhite);
    SignedMeaning(t, v);
  }

  /** White space around the number, a `+` sign and leading zeros do not change its value. */
  lemma ParseIntPadded(pre: string, sign: string, digits: string, post: string)
    requires AllNumberWhite(pre) && AllNumberWhite(post)
    requires sign == "" || sign == "+" || sign == "-"
    requires |digits| > 0 && AllDigits(digits)
    ensures var v := Signed(sign == "-", DigitsValue(digits));
            ParseInt(pre + sign + digits + post) == if InInt32(v) then Success(v) else Failure(Overflow)
  {
    var v := Signed(sign == "-", DigitsValue(digits));
    SignedDigitsOf(sign, digits);
    PaddedSlice(pre, sign, digits, post);
    NumberAtSlice(pre + sign + digits + post, sign + digits, |pre|, v);
    ParseIntOfNumber(pre + sign + digits + post, |pre|, |pre| + |sign + digits|, v);
  }

  /** A sign followed by digits is a signed digit string of the signed value. */
  lemma SignedDigitsOf(sign: string, digits: string)
    requires sign == "" || sign == "+" || sign == "-"
    requires |digits| > 0 && AllDigits(digits)
    ensures SignedDigits(sign + digits, Signed(sign == "-", DigitsValue(digits)))
  {
    var t := sign + digits;
    if sign == "" {
      assert t == digits;
      assert IsDigit(digits[0]);
    } else {
      assert t[0] == sign[0];
      assert t[1..] == digits;
    }
  }

  /** Padding a text with number white space makes it a slice with only white around. */
  lemma PaddedSlice(pre: string, sign: string, digits: string, post: string)
    requires AllNumberWhite(pre) && AllNumberWhite(post)
    ensures Text.SliceWithin(pre + sign + digits + post, sign + digits, |pre|, IsNumberWhite)
  {
    var x := sign + digits;
    var s := pre + sign + digits + post;
    assert s == pre + x + post;
    assert forall k :: 0 <= k < |pre| ==> s[k] == pre[k];
    assert forall k :: |pre| + |x| <= k < |s| ==> s[k] == post[k - |pre| - |x|];
    assert s[|pre|..|pre| + |x|] == x;
  }

  /** Text without any decimal digit never parses. */
  lemma ParseIntNeedsDigit(s: string)
    requires ParseInt(s).Success?
    ensures exists i :: 0 <= i < |s| && IsDigit(s[i])
  {
    var t := Text.TrimBy(s, IsNumberWhite);
    SignedMeaning(t, ParseInt(s).value);
    SignedDigitsEnds(t, ParseInt(s).value);
    var i :| Text.SliceWithin(s, t, i, IsNumberWhite);
    assert s[i + |t| - 1] == t[|t| - 1];
  }

  function DigitChar(d: nat): char
    requires d < 10
  {
    ('0' as int + d) as char
  }

  /** The shortest decimal rendering of a natural number. */
  function FormatNat(n: nat): (s: string)
    ensures |s| > 0 && AllDigits(s)
    ensures |s| > 1 ==> s[0] != '0'
  {
    if n < 10 then [DigitChar(n)] else FormatNat(n / 10) + [DigitChar(n % 10)]
  }

  /** Decimal rendering with a leading `-` for negative numbers (`Int32.ToString()`). */
  function FormatInt(n: int): (s: string)
    ensures |s| > 0 && !IsNumberWhite(s[0]) && !IsNumberWhite(s[|s| - 1])
    ensures !Text.IsWhiteSpace(s[0]) && !Text.IsWhiteSpace(s[|s| - 1])
    ensures ';' !in s && ',' !in s
  {
    var digits := if n < 0 then FormatNat(-n) else FormatNat(n);
    if n < 0 then "-" + digits else digits
  }

  /** Reading back the digits of `n` yields `n`. */
  lemma {:induction false} DigitsRoundTrip(n: nat)
    ensures DigitsValue(FormatNat(n)) == n
  {
    if n >= 10 {
      DigitsRoundTrip(n / 10);
      var s := FormatNat(n);
      assert s[..|s| - 1] == FormatNat(n / 10);
    }
  }

  /** `ParseInt` inverts `FormatInt` on the 32-bit range and reports `Overflow` beyond it. */
  lemma ParseFormatRoundTrip(n: int)
    ensures InInt32(n) ==> ParseInt(FormatInt(n)) == Success(n)
    ensures !InInt32(n) ==> ParseInt(FormatInt(n)) == Failure(Overflow)
  {
    if n < 0 {
      assert FormatInt(n) == "-" + FormatNat(-n);
      ParseRendering("-", -n);
      assert Signed(true, -n) == n;
    } else {
      assert FormatInt(n) == "" + FormatNat(n);
      ParseRendering("", n);
      assert Signed(false, n) == n;
    }
  }

  /** Parsing a sign followed by the digits of `m`. */
  lemma ParseRendering(sign: string, m: nat)
    requires sign == "" || sign == "-"
    ensures var v := Signed(sign == "-", m);
            ParseInt(sign + FormatNat(m)) == if InInt32(v) then Success(v) else Failure(Overflow)
  {
    DigitsRoundTrip(m);
    ParseSignedDigits(sign, FormatNat(m));
  }

  /** Parsing a sign followed by digits, with no white space around them. */
  lemma ParseSignedDigits(sign: string, digits: string)
    requires sign == "" || sign == "+" || sign == "-"
    requires |digits| > 0 && AllDigits(digits)
    ensures var v := Signed(sign == "-", DigitsValue(digits));
            ParseInt(sign + digits) == if InInt32(v) then Success(v) else Failure(Overflow)
  {
    NoPadding(sign, digits);
    ParseIntPadded("", sign, digits, "");
  }

  /** Empty padding adds nothing. */
  lemma NoPadding(a: string, b: string)
    ensures "" + a + b + "" == a + b
  {
  }


}
