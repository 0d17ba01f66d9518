/** Go's base-10 integer text forms: the `%d`/`%v` verb of package fmt on an
    int64, and strconv.ParseInt(s, 10, 64). */
module Decimal {
  import opened Errors
  import opened Record

  predicate IsDigit(c: char)
  {
    '0' <= c <= '9'
  }

  predicate AllDigits(s: string)
  {
    forall i :: 0 <= i < |s| ==> IsDigit(s[i])
  }

  function DigitChar(d: nat): (c: char)
    requires d < 10
    ensures IsDigit(c)
  {
    ('0' as int + d) as char
  }

  function DigitValue(c: char): (d: nat)
    requires IsDigit(c)
    ensures d < 10 && DigitChar(d) == c
  {
    c as int - '0' as int
  }

  /** The value of a digit string, most significant digit first. */
  function DigitsValue(s: string): nat
    requires AllDigits(s)
    decreases |s|
  {
    if s == [] then 0 else DigitsValue(s[..|s| - 1]) * 10 + DigitValue(s[|s| - 1])
  }

  /** The digits of n without leading zeros ("0" for zero). */
  function FormatNat(n: nat): (s: string)
    ensures |s| >= 1 && AllDigits(s)
    ensures s[0] == '0' ==> n == 0 && s == "0"
    decreases n
  {
    if n < 10 then [DigitChar(n)] else FormatNat(n / 10) + [DigitChar(n % 10)]
  }

  /** fmt.Sprintf("%d", i): a '-' before the digits of a negative value. */
  function FormatInt(i: int): string
  {
    if i < 0 then "-" + FormatNat(-i) else FormatNat(i)
  }

  /** The strings FormatInt produces: no '+' sign, no leading zero, no "-0". */
  predicate IsCanonical(s: string)
  {
    var body := if |s| > 0 && s[0] == '-' then s[1..] else s;
    && |body| >= 1 && AllDigits(body)
    && (|body| > 1 || (|s| > 0 && s[0] == '-') ==> body[0] != '0')
  }

  /** strconv.ParseInt(s, 10, 64): an optional '+' or '-', then one or more
      ASCII digits whose value lies in the int64 range. None stands for the
      *NumError (ErrSyntax or ErrRange) Go returns. */
  function ParseInt(s: string): Option<Int64>
  {
    if s == [] then None
    else
      var neg := s[0] == '-';
      var body := if s[0] == '+' || s[0] == '-' then s[1..] else s;
      if body == [] || !AllDigits(body) then None
      else
        var v: int := DigitsValue(body);
        if neg then (if v <= -MinInt64 then Some(-v) else None)
        else (if v <= MaxInt64 then Some(v) else None)
  }

  lemma {:induction false} DigitsOfFormatNat(n: nat)
    ensures DigitsValue(FormatNat(n)) == n
    decreases n
  {
    if n >= 10 {
      var init := FormatNat(n / 10);
      var s := init + [DigitChar(n % 10)];
      assert s[..|s| - 1] == init;
      DigitsOfFormatNat(n / 10);
    }
  }

  lemma {:induction false} ZeroValueAllZeros(s: string)
    requires AllDigits(s) && DigitsValue(s) == 0
    ensures forall i :: 0 <= i < |s| ==> s[i] == '0'
    decreases |s|
  {
    if s != [] {
      var init := s[..|s| - 1];
      ZeroValueAllZeros(init);
      forall i | 0 <= i < |s| ensures s[i] == '0' {
        if i < |s| - 1 { assert s[i] == init[i]; }
      }
    }
  }

  lemma {:induction false} FormatNatOfDigits(s: string)
    requires AllDigits(s) && |s| >= 1 && (|s| > 1 ==> s[0] != '0')
    ensures FormatNat(DigitsValue(s)) == s
    decreases |s|
  {
    var init := s[..|s| - 1];
    var d := DigitValue(s[|s| - 1]);
    if init == [] {
      assert s == [DigitChar(d)];
    } else {
      assert init[0] == s[0];
      if DigitsValue(init) == 0 {
        ZeroValueAllZeros(init);
        assert false;
      }
      FormatNatOfDigits(init);
      var n := DigitsValue(s);
      assert n / 10 == DigitsValue(init) && n % 10 == d;
      assert s == init + [s[|s| - 1]];
    }
  }

  /** Parsing the formatted form gives the value back, for every int64. */
  lemma FormatThenParse(i: Int64)
    ensures ParseInt(FormatInt(i)) == Some(i)
  {
    var n: int := i;
    if n < 0 {
      var digits := FormatNat(-n);
      DigitsOfFormatNat(-n);
      var s := "-" + digits;
      assert s[0] == '-' && s[1..] == digits;
      assert FormatInt(i) == s;
    } else {
      var digits := FormatNat(n);
      DigitsOfFormatNat(n);
      assert IsDigit(digits[0]);
      assert FormatInt(i) == digits;
    }
  }

  /** On the strings FormatInt produces, formatting the parsed value gives the
      string back; together with FormatThenParse, a bijection between int64
      and the canonical strings in range. */
  lemma ParseThenFormat(s: string)
    requires IsCanonical(s) && ParseInt(s).Some?
    ensures FormatInt(ParseInt(s).value) == s
  {
    var body := if s[0] == '-' then s[1..] else s;
    FormatNatOfDigits(body);
    if s[0] == '-' {
      if DigitsValue(body) == 0 {
        ZeroValueAllZeros(body);
        assert false;
      }
      assert s == "-" + body;
    }
  }

  /** The text after an optional leading '+' or '-'. */
  function Unsigned(s: string): string
  {
    if |s| > 0 && (s[0] == '+' || s[0] == '-') then s[1..] else s
  }

  /** An optional sign followed by one or more ASCII digits. */
  predicate IsSignedDecimal(s: string)
  {
    |Unsigned(s)| >= 1 && AllDigits(Unsigned(s))
  }

  /** The mathematical value of a signed decimal string. */
  function SignedValue(s: string): int
    requires IsSignedDecimal(s)
  {
    var v: int := DigitsValue(Unsigned(s));
    if s[0] == '-' then -v else v
  }

  /** ParseInt accepts exactly the signed decimals whose value is an int64, and
      returns that value. `-0` and leading zeros are accepted. */
  lemma ParseIntExactly(s: string)
    ensures ParseInt(s).Some? <==> IsSignedDecimal(s) && MinInt64 <= SignedValue(s) <= MaxInt64
    ensures ParseInt(s).Some? ==> ParseInt(s).value == SignedValue(s)
  {
  }

  lemma FormatIntIsCanonical(i: int)
    ensures IsCanonical(FormatInt(i))
  {
    if i < 0 {
      var digits := FormatNat(-i);
      assert ("-" + digits)[1..] == digits;
    }
  }
}
