/** Python's `int(text)` for base-10 strings and its inverse `str(n)`. */
module PyInt {
  import opened Results
  import opened Text

  predicate IsDigit(c: char)
  {
    '0' <= c <= '9'
  }

  function DigitValue(c: char): nat
    requires IsDigit(c)
  {
    c as int - '0' as int
  }

  function DigitChar(n: nat): (c: char)
    requires n < 10
    ensures IsDigit(c) && DigitValue(c) == n
  {
    ('0' as int + n) as char
  }

  /** The digit part `int()` accepts: ASCII digits, where a single underscore
      may stand between two digits. */
  predicate IsDigitRun(d: string)
  {
    && |d| > 0 && IsDigit(d[0]) && IsDigit(d[|d| - 1])
    && (forall i :: 0 <= i < |d| ==> IsDigit(d[i]) || d[i] == '_')
    && (forall i :: 0 <= i < |d| - 1 && d[i] == '_' ==> IsDigit(d[i + 1]))
  }

  /** The decimal value of a digit run, underscores ignored. */
  function DigitsValue(d: string): nat
  {
    if d == [] then 0
    else if IsDigit(d[|d| - 1]) then 10 * DigitsValue(d[..|d| - 1]) + DigitValue(d[|d| - 1])
    else DigitsValue(d[..|d| - 1])
  }

  /** The whitespace `int()` skips around the number: the ASCII blanks tab, line feed,
      vertical tab, form feed, carriage return and space, and every non-ASCII character
      `str.isspace()` accepts. The ASCII separators U+001C to U+001F satisfy
      `str.isspace()` but are not skipped. */
  predicate IntSpace(c: char)
  {
    IsSpace(c) && !('\U{1c}' <= c <= '\U{1f}')
  }

  /** `int(s)`: surrounding whitespace (`IntSpace`) is ignored, an optional sign may
      precede the digits, and anything else raises `ValueError`. */
  function ParseInt(s: string): (r: Result<int>)
    ensures r.Err? ==> r.error == ValueError
  {
    var t := Strip(s, IntSpace);
    if |t| > 0 && t[0] == '-' && IsDigitRun(t[1..]) then Ok(-(DigitsValue(t[1..]) as int))
    else if |t| > 0 && t[0] == '+' && IsDigitRun(t[1..]) then Ok(DigitsValue(t[1..]))
    else if IsDigitRun(t) then Ok(DigitsValue(t))
    else Err(ValueError)
  }

  /** Text holding only whitespace `int()` skips, the empty text included, raises
      `ValueError`. */
  lemma ParseBlank(s: string)
    requires AllBlank(s, IntSpace)
    ensures ParseInt(s) == Err(ValueError)
  {
    StripBlanks(s, IntSpace);
  }

  /** Unlike `strip`, `int()` does not skip the ASCII separator controls. */
  lemma SeparatorControlRejected(d: char)
    requires IsDigit(d)
    ensures ParseInt(['\U{1c}', d]) == Err(ValueError)
  {
    NotSpace(d);
    assert Strip(['\U{1c}', d], IntSpace) == ['\U{1c}', d];
  }

  /** `str(n)` for a natural number: its shortest decimal spelling. */
  function NatToString(n: nat): string
  {
    if n < 10 then [DigitChar(n)] else NatToString(n / 10) + [DigitChar(n % 10)]
  }

  /** `str(n)`. */
  function IntToString(n: int): string
  {
    if n < 0 then "-" + NatToString(-n) else NatToString(n)
  }

  /** `str(n)` is a digit run without underscores whose value is `n`. */
  lemma {:induction false} NatToStringDigits(n: nat)
    ensures IsDigitRun(NatToString(n))
    ensures forall i :: 0 <= i < |NatToString(n)| ==> IsDigit(NatToString(n)[i])
    ensures DigitsValue(NatToString(n)) == n
    decreases n
  {
    var d := NatToString(n);
    if n >= 10 {
      NatToStringDigits(n / 10);
      var p := NatToString(n / 10);
      assert d[..|d| - 1] == p;
      assert forall i :: 0 <= i < |p| ==> d[i] == p[i];
    }
  }

  /** A string holding no digit never parses as an integer. */
  lemma ParseNeedsDigit(s: string)
    requires forall i :: 0 <= i < |s| ==> !IsDigit(s[i])
    ensures ParseInt(s) == Err(ValueError)
  {
    var i := StripSlice(s, IntSpace);
    var t := Strip(s, IntSpace);
    assert forall k :: 0 <= k < |t| ==> t[k] == s[i + k];
    if |t| > 0 {
      assert !IsDigit(t[0]);
    }
    if |t| > 1 {
      assert !IsDigit(t[1..][0]);
    }
  }

  /** `int()` reads `str(n)` back as `n` when it is surrounded by whitespace `int()`
      skips, such as the newline `readlines` leaves on a line. */
  lemma ParseIntToString(front: string, n: int, back: string)
    requires AllBlank(front, IntSpace) && AllBlank(back, IntSpace)
    ensures ParseInt(front + IntToString(n) + back) == Ok(n)
  {
    var t := IntToString(n);
    StringOfIntTrimmed(n);
    StripPadding(front, t, back, IntSpace);
    ParseDigits(front + t + back, n);
  }

  /** `int(str(n)) == n`. */
  lemma ParseIntRoundTrip(n: int)
    ensures ParseInt(IntToString(n)) == Ok(n)
  {
    var t := IntToString(n);
    StringOfIntTrimmed(n);
    StripPadding([], t, [], IntSpace);
    assert [] + t + [] == t;
    ParseDigits(t, n);
  }

  /** `str(n)` is a `-` for a negative `n` followed by digits. */
  lemma IntToStringChars(n: int)
    ensures |IntToString(n)| > 0 && IsDigit(IntToString(n)[|IntToString(n)| - 1])
    ensures IsDigit(IntToString(n)[0]) || (n < 0 && IntToString(n)[0] == '-')
    ensures forall i :: 0 < i < |IntToString(n)| ==> IsDigit(IntToString(n)[i])
  {
    var m := if n < 0 then -n else n;
    NatToStringDigits(m);
    var d := NatToString(m);
    if n < 0 {
      assert IntToString(n) == "-" + d;
    }
  }

  /** `str(n)` neither starts nor ends with whitespace. */
  lemma StringOfIntTrimmed(n: int)
    ensures |IntToString(n)| > 0
    ensures !IntSpace(IntToString(n)[0]) && !IntSpace(IntToString(n)[|IntToString(n)| - 1])
  {
    var t := IntToString(n);
    IntToStringChars(n);
    NotSpace(t[0]);
    NotSpace(t[|t| - 1]);
  }

  /** Once stripped down to `str(n)`, the text parses as `n`. */
  lemma ParseDigits(s: string, n: int)
    requires Strip(s, IntSpace) == IntToString(n)
    ensures ParseInt(s) == Ok(n)
  {
    var m := if n < 0 then -n else n;
    NatToStringDigits(m);
    var d := NatToString(m);
    var t := Strip(s, IntSpace);
    if n < 0 {
      assert t[0] == '-' && t[1..] == d;
    } else {
      assert t == d;
      assert t[0] != '-' && t[0] != '+';
    }
  }
}
