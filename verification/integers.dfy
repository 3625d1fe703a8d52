/** Python's `int(s)` on a string and its inverse `str(n)`, restricted to
    ASCII decimal digits: surrounding whitespace is ignored, one optional
    `+` or `-` sign is accepted, and at least one digit must follow. */
module Integers {
  import opened Results
  import opened Strings

  predicate IsDigit(c: char) {
    '0' <= c <= '9'
  }

  predicate IsDigits(s: string) {
    |s| > 0 && forall k :: 0 <= k < |s| ==> IsDigit(s[k])
  }

  function DigitChar(d: nat): (c: char)
    requires d < 10
    ensures IsDigit(c)
  {
    ('0' as int + d) as char
  }

  function DigitValue(c: char): (d: nat)
    requires IsDigit(c)
    ensures d < 10
  {
    c as int - '0' as int
  }

  /** Value of a string of decimal digits, most significant first. */
  function DecimalValue(ds: string): nat
    requires forall k :: 0 <= k < |ds| ==> IsDigit(ds[k])
  {
    if ds == [] then 0
    else DecimalValue(ds[..|ds| - 1]) * 10 + DigitValue(ds[|ds| - 1])
  }

  /** `str(n)` for a non-negative `n`: decimal digits, no leading zero. */
  function NatToString(n: nat): (s: string)
    ensures IsDigits(s)
    ensures |s| > 1 ==> s[0] != '0'
  {
    if n < 10 then [DigitChar(n)] else NatToString(n / 10) + [DigitChar(n % 10)]
  }

  /** `str(n)`: a minus sign before the digits of a negative number. */
  function IntToString(n: int): string {
    if n < 0 then ['-'] + NatToString(-n) else NatToString(n)
  }

  /** A sign followed by at least one digit. */
  predicate IsSigned(t: string) {
    |t| > 1 && (t[0] == '+' || t[0] == '-') && IsDigits(t[1..])
  }

  /** `int(t)` once the whitespace around `t` is gone: at least one digit,
      with an optional sign in front, read in base 10. */
  function ParseSigned(t: string): (r: Option<int>)
    ensures r.Some? <==> IsDigits(t) || IsSigned(t)
    ensures IsDigits(t) ==> r == Some(DecimalValue(t))
    ensures IsSigned(t) && t[0] == '+' ==> r == Some(DecimalValue(t[1..]))
    ensures IsSigned(t) && t[0] == '-' ==> r == Some(-(DecimalValue(t[1..]) as int))
  {
    var signed := |t| > 0 && (t[0] == '+' || t[0] == '-');
    var digits := if signed then t[1..] else t;
    if IsDigits(digits) then
      var v: int := DecimalValue(digits);
      Some(if signed && t[0] == '-' then -v else v)
    else
      None
  }

  /** The whitespace `int()` skips around a number: space and the ASCII
      controls 9..13 (tab, line feed, vertical tab, form feed, carriage
      return). The separators 0x1C..0x1F, which `str.isspace` accepts, are
      not skipped. */
  predicate IsIntSpace(c: char) {
    c == ' ' || 9 <= c as int <= 13
  }

  /** `int(s)`: `None` where Python raises ValueError. */
  function ParseInt(s: string): Option<int> {
    ParseSigned(StripOf(s, IsIntSpace))
  }

  lemma {:induction false} DecimalValueOfNatToString(n: nat)
    ensures DecimalValue(NatToString(n)) == n
  {
    if n >= 10 {
      var s := NatToString(n);
      assert s[..|s| - 1] == NatToString(n / 10);
      DecimalValueOfNatToString(n / 10);
    }
  }

  /** `str(n)` is a non-empty run of signs and digits, so it holds no
      whitespace (tabs included). */
  lemma IntToStringIsWord(n: int)
    ensures IntToString(n) != []
    ensures forall k :: 0 <= k < |IntToString(n)| ==> !IsSpace(IntToString(n)[k])
    ensures '\t' !in IntToString(n)
  {
    var s := IntToString(n);
    if n < 0 {
      assert forall k :: 1 <= k < |s| ==> s[k] == NatToString(-n)[k - 1];
    }
    assert forall k :: 0 <= k < |s| ==> s[k] == '-' || IsDigit(s[k]);
  }

  /** `int(str(n)) == n` for every integer. */
  lemma ParseIntOfIntToString(n: int)
    ensures ParseInt(IntToString(n)) == Some(n)
  {
    var s := IntToString(n);
    IntToStringIsWord(n);
    assert !IsIntSpace(s[0]) && !IsIntSpace(s[|s| - 1]);
    StripTrimmed(s, IsIntSpace);
    if n < 0 {
      assert s[1..] == NatToString(-n);
      DecimalValueOfNatToString(-n);
    } else {
      DecimalValueOfNatToString(n);
    }
  }

  /** `int` ignores the whitespace it skips around the number. */
  lemma ParseIntIgnoresPadding(p: string, t: string, q: string)
    requires AllOf(p, IsIntSpace) && AllOf(q, IsIntSpace)
    ensures ParseInt(p + t + q) == ParseInt(t)
  {
    StripIgnoresPadding(p, t, q, IsIntSpace);
  }

  /** A separator 0x1C..0x1F after the digits is whitespace to `strip()` but
      not to `int`, which rejects the field. */
  lemma ParseIntRejectsSeparator(t: string, c: char)
    requires IsDigits(t) && 28 <= c as int <= 31
    ensures IsSpace(c)
    ensures ParseInt(t + [c]) == None
  {
    var s := t + [c];
    assert s[0] == t[0] && s[|s| - 1] == c;
    StripTrimmed(s, IsIntSpace);
    assert !IsDigit(s[|s| - 1]);
  }
}
