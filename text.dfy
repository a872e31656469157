/** Python's string built-ins that the catalog's search relies on:
    the substring test `needle in hay` and the decimal rendering `str(n)`
    of an integer. */
module Text {

  /** `needle` occurs as a contiguous slice of `hay`. */
  ghost predicate IsSlice(needle: string, hay: string)
  {
    exists k {:trigger hay[k..]} :: 0 <= k <= |hay| - |needle| && needle <= hay[k..]
  }

  /** Python's `needle in hay` for two strings, as a scan over the starting positions. */
  function Contains(hay: string, needle: string): (r: bool)
    ensures r ==> |needle| <= |hay|
    ensures needle == [] ==> r
    decreases |hay|
  {
    if needle <= hay then true
    else if |hay| == 0 then false
    else Contains(hay[1..], needle)
  }

  lemma {:induction false} ContainsIsSlice(hay: string, needle: string)
    ensures Contains(hay, needle) <==> IsSlice(needle, hay)
    decreases |hay|
  {
    if needle <= hay {
      assert hay[0..] == hay;
    } else if |hay| == 0 {
    } else {
      ContainsIsSlice(hay[1..], needle);
      if IsSlice(needle, hay) {
        var k :| 0 <= k <= |hay| - |needle| && needle <= hay[k..];
        assert k != 0 by { assert hay[0..] == hay; }
        assert hay[1..][k - 1..] == hay[k..];
      }
      if IsSlice(needle, hay[1..]) {
        var k :| 0 <= k <= |hay[1..]| - |needle| && needle <= hay[1..][k..];
        assert hay[1..][k..] == hay[k + 1..];
      }
    }
  }

  function DigitChar(d: nat): (c: char)
    requires d < 10
    ensures '0' <= c <= '9'
  {
    ('0' as int + d) as char
  }

  function DigitValue(c: char): int
  {
    c as int - '0' as int
  }

  /** Decimal digits of a natural number, most significant first, without leading zeros. */
  function NatToDecimal(n: nat): (s: string)
    ensures |s| >= 1
    ensures forall i :: 0 <= i < |s| ==> '0' <= s[i] <= '9'
    ensures s[0] == '0' ==> n == 0
    decreases n
  {
    if n < 10 then [DigitChar(n)] else NatToDecimal(n / 10) + [DigitChar(n % 10)]
  }

  /** Python's `str(n)` for an `int`: a minus sign for negatives, then the digits. */
  function IntToDecimal(n: int): (s: string)
    ensures |s| >= 1
    ensures s[0] == '-' <==> n < 0
  {
    if n < 0 then "-" + NatToDecimal(-n) else NatToDecimal(n)
  }

  /** The value of a string of decimal digits (the inverse of NatToDecimal). */
  function DecimalValue(s: string): int
  {
    if s == [] then 0 else DecimalValue(s[..|s| - 1]) * 10 + DigitValue(s[|s| - 1])
  }

  lemma {:induction false} NatToDecimalRoundTrip(n: nat)
    ensures DecimalValue(NatToDecimal(n)) == n
    decreases n
  {
    var s := NatToDecimal(n);
    if n < 10 {
      assert s[..|s| - 1] == [];
    } else {
      NatToDecimalRoundTrip(n / 10);
      assert s[..|s| - 1] == NatToDecimal(n / 10);
    }
  }

  /** The value of a decimal string with an optional leading minus sign. */
  function IntValue(s: string): int
  {
    if |s| > 0 && s[0] == '-' then -DecimalValue(s[1..]) else DecimalValue(s)
  }

  lemma IntToDecimalRoundTrip(n: int)
    ensures IntValue(IntToDecimal(n)) == n
  {
    var s := IntToDecimal(n);
    if n < 0 {
      assert s[1..] == NatToDecimal(-n);
      NatToDecimalRoundTrip(-n);
    } else {
      assert s == NatToDecimal(n) && s[0] != '-';
      NatToDecimalRoundTrip(n);
    }
  }

  /** Distinct years print differently, so `query == str(year)` selects one year at most. */
  lemma IntToDecimalInjective(a: int, b: int)
    requires IntToDecimal(a) == IntToDecimal(b)
    ensures a == b
  {
    IntToDecimalRoundTrip(a);
    IntToDecimalRoundTrip(b);
  }
}
