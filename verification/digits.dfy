/**
  Decimal and hexadecimal numerals: what `%u` / `%x` print and what the
  number conversions of `sscanf`, `strtol` and the token scanner read back.
*/
module Digits {
  import opened Arith

  predicate IsDecDigit(c: char)
  {
    '0' <= c <= '9'
  }

  /** The lower-case hexadecimal digits that `%x` prints and the lexer produces. */
  predicate IsHexDigit(c: char)
  {
    IsDecDigit(c) || 'a' <= c <= 'f'
  }

  predicate AllDec(s: string)
  {
    forall k :: 0 <= k < |s| ==> IsDecDigit(s[k])
  }

  predicate AllHex(s: string)
  {
    forall k :: 0 <= k < |s| ==> IsHexDigit(s[k])
  }

  function DecDigitValue(c: char): nat
    requires IsDecDigit(c)
  {
    (c as int - '0' as int) as nat
  }

  function HexDigitValue(c: char): nat
    requires IsHexDigit(c)
  {
    if IsDecDigit(c) then DecDigitValue(c) else (c as int - 'a' as int + 10) as nat
  }

  function DecChar(d: nat): (c: char)
    requires d < 10
    ensures IsDecDigit(c) && DecDigitValue(c) == d
  {
    ('0' as int + d) as char
  }

  function HexChar(d: nat): (c: char)
    requires d < 16
    ensures IsHexDigit(c) && HexDigitValue(c) == d
  {
    if d < 10 then DecChar(d) else ('a' as int + d - 10) as char
  }

  /** The value of a decimal numeral, most significant digit first (`strtol(s, NULL, 10)`). */
  function DecValue(s: string): nat
    requires AllDec(s)
  {
    if |s| == 0 then 0 else DecValue(s[..|s| - 1]) * 10 + DecDigitValue(s[|s| - 1])
  }

  /** The value of a hexadecimal numeral (`strtol(s, NULL, 16)`). */
  function HexValue(s: string): nat
    requires AllHex(s)
  {
    if |s| == 0 then 0 else HexValue(s[..|s| - 1]) * 16 + HexDigitValue(s[|s| - 1])
  }

  /** `%u`: the shortest decimal numeral of n. */
  function DecString(n: nat): (s: string)
    ensures 1 <= |s| && AllDec(s)
    ensures |s| > 1 ==> s[0] != '0'
  {
    if n < 10 then [DecChar(n)] else DecString(n / 10) + [DecChar(n % 10)]
  }

  /** `%x`: the shortest lower-case hexadecimal numeral of n. */
  function HexString(n: nat): (s: string)
    ensures 1 <= |s| && AllHex(s)
    ensures |s| > 1 ==> s[0] != '0'
  {
    if n < 16 then [HexChar(n)] else HexString(n / 16) + [HexChar(n % 16)]
  }

  /** Reading back what `%u` printed gives the number. */
  lemma {:induction false} DecRoundTrip(n: nat)
    ensures DecValue(DecString(n)) == n
  {
    if n >= 10 {
      DecRoundTrip(n / 10);
      var s := DecString(n);
      assert s[..|s| - 1] == DecString(n / 10);
    }
  }

  /** Reading back what `%x` printed gives the number. */
  lemma {:induction false} HexRoundTrip(n: nat)
    ensures HexValue(HexString(n)) == n
  {
    if n >= 16 {
      HexRoundTrip(n / 16);
      var s := HexString(n);
      assert s[..|s| - 1] == HexString(n / 16);
    }
  }

  /** A hexadecimal numeral of k digits is below 16^k. */
  lemma {:induction false} HexValueBelow(s: string)
    requires AllHex(s)
    ensures HexValue(s) < Pow(16, |s|)
  {
    if |s| > 0 {
      HexValueBelow(s[..|s| - 1]);
      var v := HexValue(s[..|s| - 1]);
      assert v * 16 <= (Pow(16, |s| - 1) - 1) * 16;
    }
  }

  /** A decimal numeral of k digits is below 10^k. */
  lemma {:induction false} DecValueBelow(s: string)
    requires AllDec(s)
    ensures DecValue(s) < Pow(10, |s|)
  {
    if |s| > 0 {
      DecValueBelow(s[..|s| - 1]);
      var v := DecValue(s[..|s| - 1]);
      assert v * 10 <= (Pow(10, |s| - 1) - 1) * 10;
    }
  }

  /** The numeral of a number below 16^k has at most k digits. */
  lemma {:induction false} HexStringShort(n: nat, k: nat)
    requires 1 <= k && n < Pow(16, k)
    ensures |HexString(n)| <= k
  {
    if n >= 16 {
      assert n / 16 < Pow(16, k - 1);
      HexStringShort(n / 16, k - 1);
    }
  }

  /** The numeral of a number below 10^k has at most k digits. */
  lemma {:induction false} DecStringShort(n: nat, k: nat)
    requires 1 <= k && n < Pow(10, k)
    ensures |DecString(n)| <= k
  {
    if n >= 10 {
      assert n / 10 < Pow(10, k - 1);
      DecStringShort(n / 10, k - 1);
    }
  }

  /** A decimal numeral read as hexadecimal: the digits of a decimal string are hex digits. */
  lemma DecIsHex(s: string)
    requires AllDec(s)
    ensures AllHex(s)
  {
  }

  /** A decimal numeral of value 0 is all zeros, so read as hexadecimal it is 0 too. */
  lemma {:induction false} DecZeroHexZero(s: string)
    requires AllDec(s) && DecValue(s) == 0
    ensures AllHex(s) && HexValue(s) == 0
  {
    if |s| > 0 {
      DecZeroHexZero(s[..|s| - 1]);
    }
  }

  /**
    Printing a decimal numeral's value with `%u` and reading the result as
    hexadecimal is the same as reading the numeral itself as hexadecimal:
    only leading zeros are lost.
  */
  lemma {:induction false} DecReadAsHex(s: string)
    requires AllDec(s)
    ensures AllHex(DecString(DecValue(s))) && AllHex(s)
    ensures HexValue(DecString(DecValue(s))) == HexValue(s)
  {
    if |s| > 0 {
      var s' := s[..|s| - 1];
      var d := DecDigitValue(s[|s| - 1]);
      var n := DecValue(s);
      assert n == DecValue(s') * 10 + d;
      if n < 10 {
        DecZeroHexZero(s');
        assert DecString(n) == [DecChar(d)];
        assert DecString(n)[..0] == "";
      } else {
        DecReadAsHex(s');
        assert n / 10 == DecValue(s') && n % 10 == d;
        var t := DecString(n);
        assert t[..|t| - 1] == DecString(DecValue(s'));
      }
    }
  }

  /** The number of leading characters of s that satisfy the decimal-digit test. */
  function DecRun(s: string): (n: nat)
    ensures n <= |s|
    ensures AllDec(s[..n])
    ensures n < |s| ==> !IsDecDigit(s[n])
  {
    if |s| == 0 || !IsDecDigit(s[0]) then 0
    else
      var m := DecRun(s[1..]);
      assert s[..m + 1] == [s[0]] + s[1..][..m];
      m + 1
  }

  /** A numeral followed by a non-digit is exactly the leading run of digits. */
  lemma {:induction false} DecRunOfNumeral(d: string, rest: string)
    requires AllDec(d)
    requires |rest| == 0 || !IsDecDigit(rest[0])
    ensures DecRun(d + rest) == |d|
    ensures (d + rest)[..|d|] == d
  {
    if |d| > 0 {
      assert (d + rest)[1..] == d[1..] + rest;
      DecRunOfNumeral(d[1..], rest);
    } else {
      assert d + rest == rest;
    }
  }
}
