/**
 * `Integer.parseInt` and `Integer.toString` in base 10, as the seat-count
 * fields use them: an optional sign, then one or more decimal digits whose
 * value must fit in an `int`.
 */
module JavaParse {
  import opened Wrappers
  import opened JavaInt
  import opened JavaText

  /** The value of a string of decimal digits, most significant first. */
  function DigitsValue(s: string): (v: nat)
    requires AllDigits(s)
    decreases |s|
  {
    if |s| == 0 then 0 else 10 * DigitsValue(s[..|s| - 1]) + DigitValue(s[|s| - 1])
  }

  function DigitChar(d: nat): (c: char)
    requires d <= 9
    ensures IsDigit(c) && DigitValue(c) == d
  {
    ('0' as int + d) as char
  }

  /** The decimal digits of `n`, without leading zeros. */
  function Digits(n: nat): (s: string)
    ensures |s| > 0 && AllDigits(s)
    ensures DigitsValue(s) == n
    ensures |s| > 1 ==> s[0] != '0'
    decreases n
  {
    if n < 10 then [DigitChar(n)]
    else
      var p := Digits(n / 10);
      var s := p + [DigitChar(n % 10)];
      assert s[..|s| - 1] == p;
      assert s[0] == p[0];
      s
  }

  /** `Integer.toString(n)`: a minus sign for negative values, then the digits of the magnitude. */
  function IntToString(n: I32): (s: string)
    ensures |s| > 0
    ensures s[0] == '-' <==> n < 0
    ensures n < 0 ==> AllDigits(s[1..]) && DigitsValue(s[1..]) == -(n as int)
    ensures n >= 0 ==> AllDigits(s) && DigitsValue(s) == n
  {
    if n < 0 then
      var s := "-" + Digits(-(n as int));
      assert s[1..] == Digits(-(n as int));
      s
    else Digits(n)
  }

  /** `Integer.parseInt(s)`; `None` stands for the `NumberFormatException`. */
  function ParseInt(s: string): (r: Option<I32>)
    ensures r.Some? ==> |s| > 0 && (IsDigit(s[0]) || s[0] == '-' || s[0] == '+') && AllDigits(s[1..])
    ensures r.Some? && r.value < 0 ==> s[0] == '-'
  {
    if |s| == 0 then None
    else
      var negative := s[0] == '-';
      var body := if s[0] == '-' || s[0] == '+' then s[1..] else s;
      if |body| == 0 || !AllDigits(body) then None
      else
        var v: int := if negative then -(DigitsValue(body) as int) else DigitsValue(body);
        if InRange(v) then Some(v) else None
  }

  /** Every `int` reads back from its own decimal text. */
  lemma ParseIntRoundTrip(n: I32)
    ensures ParseInt(IntToString(n)) == Some(n)
  {
  }

  /** A string of plain digits parses exactly when it is non-empty and its value fits in an `int`, and then to that value. */
  lemma ParseDigits(s: string)
    requires AllDigits(s)
    ensures ParseInt(s).Some? <==> |s| > 0 && DigitsValue(s) <= MAX_INT
    ensures ParseInt(s).Some? ==> ParseInt(s).value == DigitsValue(s)
  {
  }

  /**
   * A sign in front of digits: `+` changes nothing, `-` negates, and the
   * negated value may reach one below `-MAX_INT`; a sign alone is refused.
   */
  lemma {:induction false} ParseSigned(d: string)
    requires AllDigits(d)
    ensures ParseInt("+" + d) == ParseInt(d)
    ensures ParseInt("-" + d) == if |d| > 0 && DigitsValue(d) <= MAX_INT + 1 then Some(-(DigitsValue(d) as int)) else None
  {
    var plus, minus := "+" + d, "-" + d;
    assert plus[0] == '+' && plus[1..] == d;
    assert minus[0] == '-' && minus[1..] == d;
    if |d| > 0 {
      assert d[0] != '-' && d[0] != '+';
      var v := -(DigitsValue(d) as int);
      assert ParseInt(minus) == if InRange(v) then Some(v) else None;
    } else {
      assert ParseInt(minus).None?;
    }
  }
}
