/** Swift's 64-bit `Int` as far as the version parser uses it: the failable
    initializer `Int(_: String)` and the decimal rendering `"\(n)"`. */
module SwiftInt {
  import opened Wrappers

  /** `Int.max` and `Int.min` on a 64-bit platform. */
  const IntMax: int := 0x7FFF_FFFF_FFFF_FFFF
  const IntMin: int := -0x8000_0000_0000_0000

  predicate InRange(n: int)
  {
    IntMin <= n <= IntMax
  }

  predicate IsDigit(c: char)
  {
    '0' <= c <= '9'
  }

  predicate AllDigits(s: string)
  {
    forall i :: 0 <= i < |s| ==> IsDigit(s[i])
  }

  function DigitValue(c: char): nat
    requires IsDigit(c)
  {
    c as int - '0' as int
  }

  function DigitChar(d: nat): (c: char)
    requires d < 10
    ensures IsDigit(c) && DigitValue(c) == d
  {
    ('0' as int + d) as char
  }

  /** The value of a string of decimal digits, most significant first. */
  function DigitsValue(s: string): nat
    requires AllDigits(s)
  {
    if |s| == 0 then 0 else DigitsValue(s[..|s| - 1]) * 10 + DigitValue(s[|s| - 1])
  }

  /** `Int(s)`: an optional `+` or `-`, then one or more ASCII digits, and
      nothing else; a value outside the 64-bit range is a failure, not a
      wrap-around. */
  function ParseInt(s: string): (r: Option<int>)
    ensures r.Some? ==> InRange(r.value)
    ensures r.Some? ==> |s| > 0 && (IsDigit(s[0]) || s[0] == '+' || s[0] == '-')
    ensures r.Some? && s[0] != '-' ==> r.value >= 0
    ensures r.Some? ==> IsDigit(s[|s| - 1])
  {
    if |s| == 0 then None
    else
      var negative := s[0] == '-';
      var digits := if s[0] == '+' || s[0] == '-' then s[1..] else s;
      if |digits| == 0 || !AllDigits(digits) then None
      else
        var magnitude: int := DigitsValue(digits);
        var n := if negative then -magnitude else magnitude;
        if InRange(n) then Some(n) else None
  }

  /** The decimal digits of `n`, without leading zeros. */
  function NatDigits(n: nat): (r: string)
    ensures |r| > 0 && AllDigits(r)
    ensures r[0] == '0' ==> n == 0
  {
    if n < 10 then [DigitChar(n)] else NatDigits(n / 10) + [DigitChar(n % 10)]
  }

  /** `"\(n)"`: decimal, with a leading `-` for negative values. */
  function Describe(n: int): (r: string)
    ensures |r| > 0 && '.' !in r
    ensures n >= 0 <==> IsDigit(r[0])
    ensures n >= 0 ==> '-' !in r && r[0] != 'v' && r[0] != 'V'
  {
    if n < 0 then "-" + NatDigits(-n) else NatDigits(n)
  }

  /** Reading the digits back gives the number. */
  lemma {:induction false} NatDigitsValue(n: nat)
    ensures DigitsValue(NatDigits(n)) == n
  {
    if n >= 10 {
      var r := NatDigits(n);
      assert r[..|r| - 1] == NatDigits(n / 10);
      NatDigitsValue(n / 10);
    }
  }

  /** A single decimal digit reads as its value. */
  lemma ParseDigit(c: char)
    requires IsDigit(c)
    ensures ParseInt([c]) == Some(DigitValue(c))
  {
    assert AllDigits([c]);
    assert DigitsValue([c]) == DigitValue(c);
  }

  /** An unsigned digit string reads as its value when it fits. */
  lemma ParseUnsigned(digits: string)
    requires |digits| > 0 && AllDigits(digits) && DigitsValue(digits) <= IntMax
    ensures ParseInt(digits) == Some(DigitsValue(digits))
  {
    assert IsDigit(digits[0]);
  }

  /** A `-` before a digit string reads as the negated value when it fits. */
  lemma ParseNegative(digits: string)
    requires |digits| > 0 && AllDigits(digits) && DigitsValue(digits) <= -IntMin
    ensures ParseInt("-" + digits) == Some(-(DigitsValue(digits) as int))
  {
    var s := "-" + digits;
    assert s[0] == '-';
    assert s[1..] == digits;
  }

  /** A character that is neither a digit nor a leading sign makes the
      whole string fail: `Int("3a")` is nil, not 3. */
  lemma ParseRejectsNonDigit(s: string, i: int)
    requires 0 <= i < |s| && !IsDigit(s[i])
    requires !(i == 0 && (s[0] == '+' || s[0] == '-'))
    ensures ParseInt(s) == None
  {
    if s[0] == '+' || s[0] == '-' {
      assert s[1..][i - 1] == s[i];
    }
  }

  /** A sign needs at least one digit after it: `Int("+")` and `Int("-")`
      are nil. */
  lemma LoneSignRejected()
    ensures ParseInt("+") == None && ParseInt("-") == None
  {
  }

  /** A leading `+` is accepted and changes nothing. */
  lemma ParsePlusSign(digits: string)
    requires |digits| > 0 && AllDigits(digits)
    ensures ParseInt("+" + digits) == ParseInt(digits)
  {
    var s := "+" + digits;
    assert s[0] == '+';
    assert s[1..] == digits;
    assert IsDigit(digits[0]);
  }

  /** A digit string whose value exceeds `Int.max` is rejected, not
      wrapped around. */
  lemma ParseOverflow(digits: string)
    requires |digits| > 0 && AllDigits(digits) && DigitsValue(digits) > IntMax
    ensures ParseInt(digits) == None
  {
    assert IsDigit(digits[0]);
  }

  /** A negated digit string below `Int.min` is rejected too. */
  lemma ParseNegativeOverflow(digits: string)
    requires |digits| > 0 && AllDigits(digits) && DigitsValue(digits) > -IntMin
    ensures ParseInt("-" + digits) == None
  {
    var s := "-" + digits;
    assert s[0] == '-';
    assert s[1..] == digits;
  }

  /** `Int("+5")` is 5. */
  lemma ParsePlusFive()
    ensures ParseInt("+5") == Some(5)
  {
    ParseDigit('5');
    assert "+5" == "+" + ['5'];
    ParsePlusSign(['5']);
  }

  /** `Int("\(n)") == n` for every 64-bit `n`. */
  lemma ParseDescribe(n: int)
    requires InRange(n)
    ensures ParseInt(Describe(n)) == Some(n)
  {
    if n < 0 {
      ParseDescribeNegative(n);
    } else {
      ParseDescribeNonNegative(n);
    }
  }

  lemma ParseDescribeNegative(n: int)
    requires IntMin <= n < 0
    ensures ParseInt(Describe(n)) == Some(n)
  {
    var digits := NatDigits(-n);
    NatDigitsValue(-n);
    assert DigitsValue(digits) == -n <= -IntMin;
    assert Describe(n) == "-" + digits;
    ParseNegative(digits);
  }

  lemma ParseDescribeNonNegative(n: int)
    requires 0 <= n <= IntMax
    ensures ParseInt(Describe(n)) == Some(n)
  {
    NatDigitsValue(n);
    ParseUnsigned(NatDigits(n));
  }
}
