/**
 * The string that is hashed into a cache key: String.Format("{0}{1}{2}", url,
 * scaleWidth, scaleHeight), the URL followed by the two scale values in decimal with
 * no delimiter between the three fields.
 */
module CacheKey {

  function DigitChar(n: int): (c: char)
    requires 0 <= n < 10
    ensures '0' <= c <= '9'
  {
    ('0' as int + n) as char
  }

  function DigitValue(c: char): int
  {
    c as int - '0' as int
  }

  /** Decimal digits of a non-negative int, without leading zeros. */
  function NatString(n: nat): (s: string)
    ensures |s| >= 1 && (s[0] == '0' <==> n == 0)
    ensures forall i :: 0 <= i < |s| ==> '0' <= s[i] <= '9'
    ensures n < 10 <==> |s| == 1
  {
    if n < 10 then [DigitChar(n)] else NatString(n / 10) + [DigitChar(n % 10)]
  }

  /** How C# renders an int in a format string: a '-' before the digits of a negative value. */
  function DecimalString(n: int): (s: string)
    ensures |s| >= 1 && (s[0] == '-' <==> n < 0)
  {
    if n < 0 then "-" + NatString(-n) else NatString(n)
  }

  /** Reads decimal digits back. */
  function ParseNat(s: string): int
  {
    if |s| == 0 then 0 else 10 * ParseNat(s[..|s| - 1]) + DigitValue(s[|s| - 1])
  }

  function ParseDecimal(s: string): int
  {
    if |s| > 0 && s[0] == '-' then -ParseNat(s[1..]) else ParseNat(s)
  }

  lemma {:induction false} ParseNatOfNatString(n: nat)
    ensures ParseNat(NatString(n)) == n
  {
    if n >= 10 {
      ParseNatOfNatString(n / 10);
      var s := NatString(n);
      assert s[..|s| - 1] == NatString(n / 10);
    }
  }

  /** The decimal rendering loses nothing: each scale value can be read back from its own text. */
  lemma DecimalStringRoundTrip(n: int)
    ensures ParseDecimal(DecimalString(n)) == n
  {
    ParseNatOfNatString(if n < 0 then -n else n);
    if n < 0 {
      assert DecimalString(n)[1..] == NatString(-n);
    }
  }

  /** The string that is hashed, for the URL and the two scale values of a request. */
  function KeyString(url: string, scaleWidth: int, scaleHeight: int): (k: string)
    ensures |url| < |k| && k[..|url|] == url
  {
    url + DecimalString(scaleWidth) + DecimalString(scaleHeight)
  }

  /**
   * With the scale values fixed, the URL is recoverable from the key string, so
   * distinct URLs requested at the same scale never share a key string.
   */
  lemma KeyStringInjectiveInUrl(u1: string, u2: string, scaleWidth: int, scaleHeight: int)
    requires KeyString(u1, scaleWidth, scaleHeight) == KeyString(u2, scaleWidth, scaleHeight)
    ensures u1 == u2
  {
    var tail := DecimalString(scaleWidth) + DecimalString(scaleHeight);
    assert u1 + tail == u2 + tail;
    SameSuffixSamePrefix(u1, u2, tail);
  }

  /**
   * The other half of what the key string keeps apart: for one URL, scale pairs whose
   * widths render to the same number of characters give the same key string only when
   * they are equal. Together with KeyStringIsAmbiguous this bounds the collisions: they
   * need a digit to move between fields, which changes the width's length.
   */
  lemma KeyStringScalesRecoverable(url: string, w1: int, h1: int, w2: int, h2: int)
    requires |DecimalString(w1)| == |DecimalString(w2)|
    requires KeyString(url, w1, h1) == KeyString(url, w2, h2)
    ensures w1 == w2 && h1 == h2
  {
    var k := KeyString(url, w1, h1);
    var n, m := |url|, |DecimalString(w1)|;
    assert k == url + DecimalString(w1) + DecimalString(h1);
    assert k == url + DecimalString(w2) + DecimalString(h2);
    assert DecimalString(w1) == k[n..n + m] == DecimalString(w2);
    assert DecimalString(h1) == k[n + m..] == DecimalString(h2);
    DecimalStringRoundTrip(w1);
    DecimalStringRoundTrip(w2);
    DecimalStringRoundTrip(h1);
    DecimalStringRoundTrip(h2);
  }

  /** For example, scales (10, 10) and (20, 20) of one URL give different key strings. */
  lemma KeyStringSeparatesScales(url: string)
    ensures KeyString(url, 10, 10) != KeyString(url, 20, 20)
  {
    TwoDigitString(1, 0);
    TwoDigitString(2, 0);
    if KeyString(url, 10, 10) == KeyString(url, 20, 20) {
      KeyStringScalesRecoverable(url, 10, 10, 20, 20);
    }
  }

  lemma SameSuffixSamePrefix(a: string, b: string, t: string)
    requires a + t == b + t
    ensures a == b
  {
    assert |a| == |b|;
    assert a == (a + t)[..|a|];
    assert b == (b + t)[..|b|];
  }

  lemma TwoDigitString(b: int, c: int)
    requires 1 <= b <= 9 && 0 <= c <= 9
    ensures DecimalString(10 * b + c) == [DigitChar(b), DigitChar(c)]
  {
    var n := 10 * b + c;
    assert n / 10 == b && n % 10 == c;
    assert NatString(n) == NatString(b) + [DigitChar(c)];
    assert NatString(b) == [DigitChar(b)];
  }

  /**
   * The three fields are not delimited, so a digit can move from one field to the next
   * without changing the key string: from the URL into the width, and from the width
   * into the height.
   */
  lemma KeyStringIsAmbiguous(url: string, a: int, b: int, c: int)
    requires 1 <= a <= 9 && 1 <= b <= 9 && 0 <= c <= 9
    ensures KeyString(url, a, 10 * b + c) == KeyString(url + [DigitChar(a)], b, c)
    ensures KeyString(url, a, 10 * b + c) == KeyString(url, 10 * a + b, c)
  {
    TwoDigitString(b, c);
    TwoDigitString(a, b);
    assert DecimalString(a) == [DigitChar(a)];
    assert DecimalString(b) == [DigitChar(b)];
    assert DecimalString(c) == [DigitChar(c)];
  }

  /** ("a", 1, 23) and ("a1", 2, 3) share a key string, and so do scales (1, 23) and (12, 3) of one URL. */
  lemma KeyStringCollisions(url: string)
    ensures KeyString("a", 1, 23) == KeyString("a1", 2, 3)
    ensures KeyString(url, 1, 23) == KeyString(url, 12, 3)
  {
    KeyStringIsAmbiguous("a", 1, 2, 3);
    KeyStringIsAmbiguous(url, 1, 2, 3);
    assert "a" + [DigitChar(1)] == "a1";
  }
}
