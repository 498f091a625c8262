/**
 * Python's `int(s)` on a string (base 10): surrounding whitespace is ignored,
 * one optional sign, then ASCII digits with single underscores allowed
 * between digits; anything else raises `ValueError`.
 */
module PyInt {
  import opened Wrappers
  import opened PyStr

  predicate IsDigit(c: char) {
    '0' <= c <= '9'
  }

  /** Digits in groups separated by single underscores, e.g. "1_000". */
  predicate DigitGroups(s: string) {
    s != [] && IsDigit(s[0]) && IsDigit(s[|s| - 1]) &&
    (forall i :: 0 <= i < |s| ==> IsDigit(s[i]) || s[i] == '_') &&
    (forall i :: 0 <= i < |s| - 1 ==> s[i] == '_' ==> s[i + 1] != '_')
  }

  /** The number the digits spell, underscores skipped. */
  function DigitsValue(s: string): nat {
    if s == [] then 0
    else if IsDigit(s[|s| - 1]) then DigitsValue(s[..|s| - 1]) * 10 + (s[|s| - 1] as int - '0' as int)
    else DigitsValue(s[..|s| - 1])
  }

  /** `int(s)`, or None where it raises. */
  function ParseInt(s: string): Option<int> {
    var t := Strip(s);
    if t != [] && (t[0] == '+' || t[0] == '-') then
      var v: int := DigitsValue(t[1..]);
      if DigitGroups(t[1..]) then Some(if t[0] == '-' then -v else v)
      else None
    else if DigitGroups(t) then Some(DigitsValue(t))
    else None
  }

  /** `str(n)` for a natural number. */
  function Decimal(n: nat): (r: string)
    ensures r != [] && forall i :: 0 <= i < |r| ==> IsDigit(r[i])
  {
    if n < 10 then [('0' as int + n) as char]
    else Decimal(n / 10) + [('0' as int + n % 10) as char]
  }

  /** The digits of `str(n)` spell `n`. */
  lemma {:induction false} DecimalValue(n: nat)
    ensures DigitsValue(Decimal(n)) == n
  {
    if n >= 10 {
      DecimalValue(n / 10);
      assert Decimal(n)[..|Decimal(n)| - 1] == Decimal(n / 10);
    }
  }

  /** A string without whitespace at either end is its own strip. */
  lemma StripUnpadded(s: string)
    requires s != [] && !IsSpace(s[0]) && !IsSpace(s[|s| - 1])
    ensures Strip(s) == s
  {
    var i, j := StripSpec(s);
  }

  /** `str(n)` is a single group of digits. */
  lemma DecimalGroups(n: nat)
    ensures DigitGroups(Decimal(n))
  {
  }

  /** `int(str(n)) == n`, also with surrounding whitespace. */
  lemma ParseDecimal(n: nat, pre: string, post: string)
    requires AllSpace(pre) && AllSpace(post)
    ensures ParseInt(pre + Decimal(n) + post) == Some(n)
  {
    DecimalValue(n);
    DecimalGroups(n);
    StripAround(pre, Decimal(n), post);
  }

  /** A sign in front of `str(n)` is accepted: "-" negates, "+" does nothing. */
  lemma ParseSignedDecimal(n: nat, sign: char, pre: string, post: string)
    requires AllSpace(pre) && AllSpace(post)
    requires sign == '-' || sign == '+'
    ensures ParseInt(pre + [sign] + Decimal(n) + post) == Some(if sign == '-' then -(n as int) else n)
  {
    DecimalValue(n);
    DecimalGroups(n);
    var t := [sign] + Decimal(n);
    StripAround(pre, t, post);
    assert pre + [sign] + Decimal(n) + post == pre + t + post;
    assert t[1..] == Decimal(n);
  }

  /** Stripping removes exactly the whitespace around an unpadded core. */
  lemma StripAround(pre: string, core: string, post: string)
    requires AllSpace(pre) && AllSpace(post)
    requires core != [] && !IsSpace(core[0]) && !IsSpace(core[|core| - 1])
    ensures Strip(pre + core + post) == core
  {
    var s := pre + core + post;
    var i, j := StripSpec(s);
    StripTrimmed(s);
    assert forall k :: 0 <= k < |pre| ==> s[k] == pre[k];
    assert forall k :: |pre| + |core| <= k < |s| ==> s[k] == post[k - |pre| - |core|];
    assert !IsSpace(s[|pre|]) && !IsSpace(s[|pre| + |core| - 1]);
    assert i == |pre| && j == |pre| + |core|;
    assert s[i..j] == core;
  }

  /** Empty text and text with a non-digit do not parse. */
  lemma ParseRejects()
    ensures ParseInt("") == None
    ensures ParseInt("   ") == None
    ensures ParseInt("7a") == None
    ensures ParseInt("1__0") == None
  {
    assert Strip("") == "";
    StripEmptyIff("   ");
    StripUnpadded("7a");
    StripUnpadded("1__0");
    assert !DigitGroups("1__0") by { assert "1__0"[1] == '_' && "1__0"[2] == '_'; }
  }
}
