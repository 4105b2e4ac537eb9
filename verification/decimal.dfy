/**
 Decimal rendering of integers as C's `sprintf("%d")` produces it (an optional
 minus sign, then the digits without leading zeros), and the parser that
 inverts it. The blend program of styleblit() is specialised by a shader
 prefix that embeds the blend radius in this form.
 */
module Decimal {
  import opened Wrappers

  predicate IsDigit(c: char) {
    '0' <= c <= '9'
  }

  predicate AllDigits(s: string) {
    forall i :: 0 <= i < |s| ==> IsDigit(s[i])
  }

  /** A canonical unsigned decimal: non-empty, digits only, no leading zero
      unless it is the single digit "0". */
  predicate IsCanonical(s: string) {
    && |s| >= 1
    && AllDigits(s)
    && (|s| > 1 ==> s[0] != '0')
  }

  function DigitChar(d: int): (c: char)
    requires 0 <= d < 10
    ensures IsDigit(c)
    ensures DigitValue(c) == d
  {
    (('0' as int) + d) as char
  }

  function DigitValue(c: char): (d: int)
    requires IsDigit(c)
    ensures 0 <= d < 10
  {
    (c as int) - ('0' as int)
  }

  /** Digits of a natural number, most significant first. */
  function NatToDecimal(n: nat): (s: string)
    ensures IsCanonical(s)
    ensures |s| == 1 <==> n < 10
    ensures s == "0" <==> n == 0
    decreases n
  {
    if n < 10 then [DigitChar(n)] else NatToDecimal(n / 10) + [DigitChar(n % 10)]
  }

  /** `%d` rendering of a (possibly negative) int. */
  function IntToDecimal(n: int): (s: string)
    ensures |s| >= 1
    ensures n < 0 <==> s[0] == '-'
    ensures n >= 0 ==> IsCanonical(s)
    ensures n < 0 ==> IsCanonical(s[1..])
    ensures s != "-0"
  {
    if n < 0 then "-" + NatToDecimal(-n) else NatToDecimal(n)
  }

  /** Value of a string of digits, most significant first. */
  function ParseNat(s: string): nat
    requires AllDigits(s)
  {
    if |s| == 0 then 0 else ParseNat(s[..|s| - 1]) * 10 + DigitValue(s[|s| - 1])
  }

  /** Inverse of IntToDecimal: accepts an optional '-' followed by a canonical
      decimal, and nothing else. */
  function ParseInt(s: string): (r: Option<int>)
    ensures r.Some? ==> |s| >= 1
  {
    if |s| >= 1 && s[0] == '-' then
      if IsCanonical(s[1..]) && s[1..] != "0" then var v: int := ParseNat(s[1..]); Some(-v) else None
    else if IsCanonical(s) then Some(ParseNat(s))
    else None
  }

  lemma {:induction false} ParseNatToDecimal(n: nat)
    ensures ParseNat(NatToDecimal(n)) == n
    decreases n
  {
    if n >= 10 {
      var s := NatToDecimal(n);
      ParseNatToDecimal(n / 10);
      assert s[..|s| - 1] == NatToDecimal(n / 10);
    }
  }

  lemma {:induction false} NatToDecimalParse(s: string)
    requires IsCanonical(s)
    ensures NatToDecimal(ParseNat(s)) == s
    decreases |s|
  {
    if |s| > 1 {
      var p := s[..|s| - 1];
      assert IsCanonical(p) by {
        assert p[0] == s[0];
        forall i | 0 <= i < |p| ensures IsDigit(p[i]) {
          assert p[i] == s[i];
        }
      }
      NatToDecimalParse(p);
      if |p| > 1 {
        ParseNatNoLeadingZero(p);
      } else {
        assert ParseNat(p) == DigitValue(p[0]);
      }
      var n := ParseNat(s);
      assert n / 10 == ParseNat(p);
      assert n % 10 == DigitValue(s[|s| - 1]);
      assert DigitChar(n % 10) == s[|s| - 1];
      assert s == p + [s[|s| - 1]];
    } else {
      assert DigitChar(DigitValue(s[0])) == s[0];
    }
  }

  /** A canonical decimal with more than one digit denotes a value >= 1. */
  lemma {:induction false} ParseNatNoLeadingZero(s: string)
    requires IsCanonical(s) && |s| > 1
    ensures ParseNat(s) >= 1
    decreases |s|
  {
    var p := s[..|s| - 1];
    assert p[0] == s[0];
    assert AllDigits(p) by {
      forall i | 0 <= i < |p| ensures IsDigit(p[i]) {
        assert p[i] == s[i];
      }
    }
    if |p| > 1 {
      ParseNatNoLeadingZero(p);
    } else {
      assert ParseNat(p) == DigitValue(p[0]) >= 1;
    }
  }

  /** Rendering then parsing gives back the integer. */
  lemma IntToDecimalRoundTrip(n: int)
    ensures ParseInt(IntToDecimal(n)) == Some(n)
  {
    var s := IntToDecimal(n);
    if n < 0 {
      assert s[1..] == NatToDecimal(-n);
      ParseNatToDecimal(-n);
    } else {
      ParseNatToDecimal(n);
    }
  }

  /** Parsing then rendering gives back the string: every accepted string is
      exactly what `%d` would print. */
  lemma ParseIntRoundTrip(s: string)
    requires ParseInt(s).Some?
    ensures IntToDecimal(ParseInt(s).value) == s
  {
    if s[0] == '-' {
      var t := s[1..];
      NatToDecimalParse(t);
      if |t| == 1 {
        assert ParseNat(t) == DigitValue(t[0]);
        assert t[0] != '0';
      } else {
        ParseNatNoLeadingZero(t);
      }
      assert s == "-" + t;
    } else {
      NatToDecimalParse(s);
    }
  }

  /** The number of digits is bounded by the magnitude. */
  lemma {:induction false} NatToDecimalLength(n: nat, k: nat)
    requires k >= 1 && n < Pow10(k)
    ensures |NatToDecimal(n)| <= k
    decreases k
  {
    if n >= 10 {
      assert k >= 2;
      assert Pow10(k) == 10 * Pow10(k - 1);
      NatToDecimalLength(n / 10, k - 1);
    }
  }

  function Pow10(k: nat): (p: nat)
    ensures p >= 1
  {
    if k == 0 then 1 else 10 * Pow10(k - 1)
  }

  /** Any 32-bit C int prints in at most 11 characters ("-2147483648"). */
  lemma Int32DecimalLength(n: int)
    requires -0x8000_0000 <= n < 0x8000_0000
    ensures |IntToDecimal(n)| <= 11
  {
    assert Pow10(5) == 100_000;
    assert Pow10(10) == 10_000_000_000;
    if n < 0 {
      NatToDecimalLength(-n, 10);
    } else {
      NatToDecimalLength(n, 10);
    }
  }
}
