/**
  Python's str() of an integer and int() of a string, for the ASCII decimal
  notation the scripts use to name their year columns ('1991' .. '2019').
  A year reaches the data frames as a column name produced by str(), and
  years_check reads it back with int().
 */
module Decimal {
  import opened Wrappers

  predicate IsDigit(c: char) { '0' <= c <= '9' }

  predicate AllDigits(s: string) { forall i :: 0 <= i < |s| ==> IsDigit(s[i]) }

  /** The characters str.isspace() accepts in ASCII: space, \t \n \v \f \r and \x1c..\x1f. */
  predicate IsSpace(c: char) { c == ' ' || (9 <= c as int <= 13) || (28 <= c as int <= 31) }

  function DigitChar(d: nat): (c: char)
    requires d < 10
    ensures IsDigit(c) && DigitValue(c) == d
  {
    ('0' as int + d) as char
  }

  function DigitValue(c: char): nat
    requires IsDigit(c)
  {
    c as int - '0' as int
  }

  /** The decimal digits of a natural number, most significant first. */
  function NatToString(n: nat): (s: string)
    ensures CanonicalDigits(s)
  {
    if n < 10 then [DigitChar(n)] else NatToString(n / 10) + [DigitChar(n % 10)]
  }

  /** Python's str(i) for an int. */
  function IntToString(i: int): (s: string)
    ensures i >= 0 ==> CanonicalDigits(s)
  {
    if i < 0 then "-" + NatToString(-i) else NatToString(i)
  }

  /** The value of a string of decimal digits, read left to right. */
  function DigitsValue(s: string): nat
    requires AllDigits(s)
  {
    if |s| == 0 then 0 else DigitsValue(s[..|s| - 1]) * 10 + DigitValue(s[|s| - 1])
  }

  function TrimStart(s: string): (r: string)
    ensures |r| <= |s| && r == s[|s| - |r|..]
    ensures |r| > 0 ==> !IsSpace(r[0])
    ensures forall i :: 0 <= i < |s| - |r| ==> IsSpace(s[i])
  {
    if |s| > 0 && IsSpace(s[0]) then TrimStart(s[1..]) else s
  }

  function TrimEnd(s: string): (r: string)
    ensures |r| <= |s| && r == s[..|r|]
    ensures |r| > 0 ==> !IsSpace(r[|r| - 1])
    ensures forall i :: |r| <= i < |s| ==> IsSpace(s[i])
  {
    if |s| > 0 && IsSpace(s[|s| - 1]) then TrimEnd(s[..|s| - 1]) else s
  }

  /** The string int() actually parses: the argument without surrounding white space. */
  function Strip(s: string): string { TrimEnd(TrimStart(s)) }

  /** An unsigned decimal as str() writes it: digits, no leading zero except in "0". */
  predicate CanonicalDigits(s: string)
  {
    |s| > 0 && AllDigits(s) && (s[0] != '0' || |s| == 1)
  }

  /** A decimal integer as str() writes it: "0", or an optional '-' before digits that do not start with '0'. */
  predicate Canonical(s: string)
  {
    CanonicalDigits(s) || (|s| > 1 && s[0] == '-' && s[1] != '0' && CanonicalDigits(s[1..]))
  }

  /**
    Python's int(s) on a str: surrounding white space is ignored, then an
    optional sign and at least one ASCII digit; leading zeros are allowed.
    None stands for the ValueError int() raises on anything else.
   */
  function ParseInt(s: string): (r: Option<int>)
    ensures Strip(s) == [] ==> r.None?
  {
    var t := Strip(s);
    if |t| > 0 && (t[0] == '-' || t[0] == '+') then
      var d := t[1..];
      if |d| > 0 && AllDigits(d) then
        var v: int := DigitsValue(d);
        Some(if t[0] == '-' then -v else v)
      else None
    else if |t| > 0 && AllDigits(t) then Some(DigitsValue(t))
    else None
  }

  // ---------------------------------------------------------------- lemmas

  /** Reading back the digits str() writes gives the number. */
  lemma {:induction false} DigitsValueOfNatToString(n: nat)
    ensures DigitsValue(NatToString(n)) == n
  {
    if n >= 10 {
      var s := NatToString(n);
      assert s[..|s| - 1] == NatToString(n / 10);
      DigitsValueOfNatToString(n / 10);
    }
  }

  /** A digit string that does not start with '0' has a positive value. */
  lemma {:induction false} LeadingDigitPositive(s: string)
    requires |s| > 0 && AllDigits(s) && s[0] != '0'
    ensures DigitsValue(s) > 0
  {
    if |s| > 1 {
      LeadingDigitPositive(s[..|s| - 1]);
    }
  }

  /** Writing the value of a canonical digit string gives the string back. */
  lemma {:induction false} NatToStringOfDigitsValue(s: string)
    requires CanonicalDigits(s)
    ensures NatToString(DigitsValue(s)) == s
  {
    if |s| > 1 {
      var p := s[..|s| - 1];
      var d := DigitValue(s[|s| - 1]);
      LeadingDigitPositive(p);
      assert CanonicalDigits(p);
      NatToStringOfDigitsValue(p);
      var n := DigitsValue(s);
      assert n == DigitsValue(p) * 10 + d;
      assert n / 10 == DigitsValue(p) && n % 10 == d;
      assert DigitChar(d) == s[|s| - 1];
      assert s == p + [s[|s| - 1]];
    }
  }

  lemma StripUnspaced(s: string)
    requires |s| > 0 && !IsSpace(s[0]) && !IsSpace(s[|s| - 1])
    ensures Strip(s) == s
  {
  }

  /** int(str(i)) == i for every integer. */
  lemma IntOfString(i: int)
    ensures ParseInt(IntToString(i)) == Some(i)
  {
    var s := IntToString(i);
    var n := if i < 0 then -i else i;
    var ds := NatToString(n);
    DigitsValueOfNatToString(n);
    StripUnspaced(s);
    if i < 0 {
      assert s[1..] == ds;
    }
  }

  /** str(int(s)) == s for every string str() can produce. */
  lemma StringOfInt(s: string)
    requires Canonical(s)
    ensures ParseInt(s).Some? && IntToString(ParseInt(s).value) == s
  {
    StripUnspaced(s);
    if CanonicalDigits(s) {
      NatToStringOfDigitsValue(s);
    } else {
      var d := s[1..];
      LeadingDigitPositive(d);
      NatToStringOfDigitsValue(d);
      assert s == "-" + d;
    }
  }

  /** The strings str() produces are exactly the canonical ones. */
  lemma IntToStringCanonical(i: int)
    ensures Canonical(IntToString(i))
  {
    if i < 0 {
      var ds := NatToString(-i);
      assert IntToString(i)[1..] == ds;
      if ds[0] == '0' {
        assert |ds| == 1;
        StringOfInt(ds);
        DigitsValueOfNatToString(-i);
        assert DigitsValue(ds) == 0;
      }
    }
  }

  /** Distinct years give distinct column names. */
  lemma IntToStringInjective(a: int, b: int)
    ensures IntToString(a) == IntToString(b) <==> a == b
  {
    if IntToString(a) == IntToString(b) {
      IntOfString(a);
      IntOfString(b);
    }
  }
}
