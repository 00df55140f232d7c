/**
 * The pieces of `java.lang.String` the validators rely on: `trim()`,
 * `isEmpty()`, and the ASCII digit class `[0-9]` used by the regular
 * expressions of the payment and passenger forms.
 */
module JavaText {
  import opened Wrappers

  /** `String.trim()` removes every leading and trailing character whose code is at most U+0020. */
  predicate IsTrimmable(c: char) {
    c <= ' '
  }

  predicate IsDigit(c: char) {
    '0' <= c <= '9'
  }

  predicate AllDigits(s: string) {
    forall i :: 0 <= i < |s| ==> IsDigit(s[i])
  }

  /** `s.trim().isEmpty()`: nothing but trimmable characters. */
  predicate IsBlank(s: string) {
    forall i :: 0 <= i < |s| ==> IsTrimmable(s[i])
  }

  function DigitValue(c: char): (d: nat)
    requires IsDigit(c)
    ensures d <= 9
  {
    (c as int - '0' as int) as nat
  }

  /** Drops the leading trimmable characters. */
  function StripLeading(s: string): (r: string)
    ensures |r| <= |s|
  {
    if |s| > 0 && IsTrimmable(s[0]) then StripLeading(s[1..]) else s
  }

  /** What is left is the suffix that starts at the first non-trimmable character. */
  lemma {:induction false} StripLeadingMeans(s: string)
    ensures StripLeading(s) == s[|s| - |StripLeading(s)|..]
    ensures forall i :: 0 <= i < |s| - |StripLeading(s)| ==> IsTrimmable(s[i])
    ensures |StripLeading(s)| > 0 ==> !IsTrimmable(StripLeading(s)[0])
  {
    if |s| > 0 && IsTrimmable(s[0]) {
      StripLeadingMeans(s[1..]);
      assert s[1..][|s| - 1 - |StripLeading(s)|..] == s[|s| - |StripLeading(s)|..];
      forall i | 0 <= i < |s| - |StripLeading(s)|
        ensures IsTrimmable(s[i])
      {
        if i > 0 {
          assert s[i] == s[1..][i - 1];
        }
      }
    }
  }

  /** Drops the trailing trimmable characters. */
  function StripTrailing(s: string): (r: string)
    ensures |r| <= |s|
  {
    if |s| > 0 && IsTrimmable(s[|s| - 1]) then StripTrailing(s[..|s| - 1]) else s
  }

  /** What is left is the prefix that ends at the last non-trimmable character. */
  lemma {:induction false} StripTrailingMeans(s: string)
    ensures StripTrailing(s) == s[..|StripTrailing(s)|]
    ensures forall i :: |StripTrailing(s)| <= i < |s| ==> IsTrimmable(s[i])
    ensures |StripTrailing(s)| > 0 ==> !IsTrimmable(StripTrailing(s)[|StripTrailing(s)| - 1])
  {
    if |s| > 0 && IsTrimmable(s[|s| - 1]) {
      StripTrailingMeans(s[..|s| - 1]);
      assert s[..|s| - 1][..|StripTrailing(s)|] == s[..|StripTrailing(s)|];
      forall i | |StripTrailing(s)| <= i < |s|
        ensures IsTrimmable(s[i])
      {
        if i < |s| - 1 {
          assert s[i] == s[..|s| - 1][i];
        }
      }
    }
  }

  /** Java's `String.trim()`. */
  function Trim(s: string): (t: string)
    ensures |t| <= |s|
    ensures |t| > 0 ==> !IsTrimmable(t[0]) && !IsTrimmable(t[|t| - 1])
    ensures |t| == 0 <==> IsBlank(s)
  {
    var l := StripLeading(s);
    StripLeadingMeans(s);
    StripTrailingMeans(l);
    var t := StripTrailing(l);
    assert |t| > 0 ==> t[0] == l[0];
    t
  }

  /**
   * Trimming cuts a block of trimmable characters off each end and keeps
   * everything between them.
   */
  lemma TrimIsInfix(s: string)
    ensures exists i, j :: && 0 <= i <= j <= |s| && Trim(s) == s[i..j]
                           && (forall k :: 0 <= k < i ==> IsTrimmable(s[k]))
                           && (forall k :: j <= k < |s| ==> IsTrimmable(s[k]))
  {
    var l := StripLeading(s);
    var t := StripTrailing(l);
    StripLeadingMeans(s);
    StripTrailingMeans(l);
    var i := |s| - |l|;
    var j := i + |t|;
    assert l == s[i..];
    assert t == s[i..j];
    forall k | j <= k < |s|
      ensures IsTrimmable(s[k])
    {
      assert s[k] == l[k - i];
    }
  }


  /** A string with no trimmable character at either end is its own trim. */
  lemma {:induction false} TrimOfTrimmed(s: string)
    requires |s| > 0 ==> !IsTrimmable(s[0]) && !IsTrimmable(s[|s| - 1])
    ensures Trim(s) == s
  {
    assert StripLeading(s) == s;
    assert StripTrailing(s) == s;
  }

  /** `trim()` is idempotent. */
  lemma TrimIdempotent(s: string)
    ensures Trim(Trim(s)) == Trim(s)
  {
    TrimOfTrimmed(Trim(s));
  }

  /** The `isNotEmpty` helper of the user service, and the null-or-blank guards of the passenger service: non-null, and not all trimmable. */
  predicate IsNotBlank(str: Option<string>) {
    str.Some? && !IsBlank(str.value)
  }

  /** `IsNotBlank` is `str != null && !str.trim().isEmpty()`: the reference is non-null and holds some character `trim` keeps. */
  lemma IsNotBlankMeans(str: Option<string>)
    ensures IsNotBlank(str) <==> str.Some? && |Trim(str.value)| > 0
    ensures IsNotBlank(str) <==> str.Some? && exists i :: 0 <= i < |str.value| && !IsTrimmable(str.value[i])
  {
  }
}
