/**
 * Decimal text of 32-bit integers: the text Integer.toString writes and the text Integer.parseInt
 * reads, restricted to the ASCII digits '0'..'9'.
 */
module Decimal {
  import opened Wrappers

  /** Java's int. */
  type int32 = x: int | -0x8000_0000 <= x < 0x8000_0000

  predicate IsDigit(c: char)
  {
    '0' <= c <= '9'
  }

  predicate AllDigits(s: string)
  {
    forall k :: 0 <= k < |s| ==> IsDigit(s[k])
  }

  function DigitChar(d: nat): (c: char)
    requires d < 10
    ensures IsDigit(c)
  {
    ('0' as int + d) as char
  }

  function DigitValue(c: char): (d: nat)
    requires IsDigit(c)
    ensures d < 10 && DigitChar(d) == c
  {
    c as int - '0' as int
  }

  /** The number a string of digits denotes, most significant digit first. */
  function DigitsValue(s: string): nat
    requires AllDigits(s)
  {
    if s == [] then 0 else DigitsValue(s[..|s| - 1]) * 10 + DigitValue(s[|s| - 1])
  }

  /** The shortest decimal text of a natural number. */
  function NatToString(n: nat): (s: string)
    ensures |s| >= 1 && AllDigits(s)
    ensures DigitsValue(s) == n
    ensures s[0] == '0' ==> n == 0 && s == "0"
  {
    if n < 10 then [DigitChar(n)]
    else
      var p := NatToString(n / 10);
      var s := p + [DigitChar(n % 10)];
      assert s[..|s| - 1] == p;
      s
  }

  /** Integer.toString: a minus sign before the digits of a negative number. */
  function IntToString(i: int): string
  {
    if i < 0 then "-" + NatToString(-i) else NatToString(i)
  }

  /**
   * Integer.parseInt in radix 10: an optional leading '-' or '+', then at least one digit
   * (leading zeros allowed); None (NumberFormatException) for anything else and for a value
   * outside the 32-bit range.
   */
  function ParseInt(s: string): (r: Option<int32>)
  {
    if |s| == 0 then None
    else
      var signed := s[0] == '-' || s[0] == '+';
      var digits := if signed then s[1..] else s;
      if |digits| == 0 || !AllDigits(digits) then None
      else
        var v: int := if s[0] == '-' then -(DigitsValue(digits) as int) else DigitsValue(digits);
        if -0x8000_0000 <= v < 0x8000_0000 then Some(v) else None
  }

  /** Reading back what Integer.toString wrote gives the same int. */
  lemma ParseIntToString(i: int32)
    ensures ParseInt(IntToString(i)) == Some(i)
  {
    if i < 0 {
      var s := IntToString(i);
      assert s[1..] == NatToString(-(i as int));
    }
  }

  /** ParseInt reads an optional sign followed by digits, and fails exactly when the value is out of range. */
  lemma ParseIntSignDigits(sign: string, digits: string)
    requires sign == "" || sign == "-" || sign == "+"
    requires |digits| >= 1 && AllDigits(digits)
    ensures var v: int := if sign == "-" then -(DigitsValue(digits) as int) else DigitsValue(digits);
      ParseInt(sign + digits) == if -0x8000_0000 <= v < 0x8000_0000 then Some(v) else None
  {
    var s := sign + digits;
    if sign == "" {
      assert s == digits && IsDigit(s[0]);
    } else {
      assert s[1..] == digits;
    }
  }

  /** parseInt refuses the empty text, and a text that after one optional sign is empty or holds a non-digit. */
  lemma ParseIntRefuses(s: string)
    ensures |s| == 0 ==> ParseInt(s) == None
    ensures |s| > 0 ==> var digits := if s[0] == '-' || s[0] == '+' then s[1..] else s;
      (|digits| == 0 || !AllDigits(digits)) ==> ParseInt(s) == None
  {
  }

  /** Texts parseInt refuses: empty, a lone sign, white space, other characters, out of range. */
  lemma ParseIntRefusals()
    ensures ParseInt("") == None && ParseInt("-") == None && ParseInt("+") == None
    ensures ParseInt(" 1") == None && ParseInt("1 ") == None && ParseInt("1a") == None && ParseInt("--1") == None
    ensures ParseInt("2147483648") == None && ParseInt("-2147483649") == None
  {
    assert !IsDigit(" 1"[0]) && !IsDigit("1 "[1]) && !IsDigit("1a"[1]) && !IsDigit("--1"[1..][0]);
    assert DigitsValue("2147483648") == 2147483648 by { BigLiteral(); }
    assert DigitsValue("2147483649") == 2147483649 by { BigLiteral(); }
  }

  lemma BigLiteral()
    ensures DigitsValue("2147483648") == 2147483648 && DigitsValue("2147483649") == 2147483649
  {
    assert "2147483648"[..9] == "214748364" && "2147483649"[..9] == "214748364";
    assert "214748364"[..8] == "21474836" && "21474836"[..7] == "2147483";
    assert "2147483"[..6] == "214748" && "214748"[..5] == "21474" && "21474"[..4] == "2147";
    assert "2147"[..3] == "214" && "214"[..2] == "21" && "21"[..1] == "2" && "2"[..0] == "";
  }

  function Zeros(k: nat): (z: string)
    ensures |z| == k && AllDigits(z)
  {
    if k == 0 then "" else Zeros(k - 1) + "0"
  }

  lemma {:induction false} ZerosValue(k: nat)
    ensures DigitsValue(Zeros(k)) == 0
  {
    if k > 0 {
      ZerosValue(k - 1);
      assert Zeros(k)[..k - 1] == Zeros(k - 1);
    }
  }

  /** Leading zeros do not change the number a string of digits denotes. */
  lemma {:induction false} LeadingZeros(k: nat, s: string)
    requires AllDigits(s)
    ensures AllDigits(Zeros(k) + s) && DigitsValue(Zeros(k) + s) == DigitsValue(s)
    decreases |s|
  {
    var t := Zeros(k) + s;
    assert AllDigits(t);
    if s == [] {
      assert t == Zeros(k);
      ZerosValue(k);
    } else {
      LeadingZeros(k, s[..|s| - 1]);
      assert t[..|t| - 1] == Zeros(k) + s[..|s| - 1];
    }
  }

  /** The decimal text of n with zeros in front up to a width of w, as a numeric date field is written. */
  function Padded(n: nat, w: nat): (s: string)
    ensures |s| == if |NatToString(n)| >= w then |NatToString(n)| else w
    ensures AllDigits(s) && DigitsValue(s) == n
  {
    var d := NatToString(n);
    if |d| >= w then d
    else
      LeadingZeros(w - |d|, d);
      Zeros(w - |d|) + d
  }

  /** A number below 10^w is written in exactly w digits. */
  lemma {:induction false} PaddedWidth(n: nat, w: nat)
    requires w >= 1 && n < Pow10(w)
    ensures |Padded(n, w)| == w
  {
    NatToStringLength(n, w);
  }

  function Pow10(k: nat): (p: nat)
    ensures p >= 1
  {
    if k == 0 then 1 else 10 * Pow10(k - 1)
  }

  lemma {:induction false} NatToStringLength(n: nat, w: nat)
    requires w >= 1 && n < Pow10(w)
    ensures |NatToString(n)| <= w
  {
    if n >= 10 {
      assert w != 1 by {
        assert Pow10(1) == 10;
      }
      NatToStringLength(n / 10, w - 1);
    }
  }

  /** Test vectors of the integer encoding. */
  lemma IntToStringExamples()
    ensures IntToString(123) == "123" && IntToString(-123) == "-123" && IntToString(0) == "0"
  {
    assert NatToString(12) == "12" by { assert NatToString(1) == "1"; }
  }
}
