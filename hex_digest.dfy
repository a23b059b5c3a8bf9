/**
 * GetMD5: the cache key is the MD5 digest of the request string, rendered as lower-case
 * hex. The digest itself is a platform function (`md5`); what is modelled is the
 * rendering loop: each byte masked with 0xFF, passed to Java's Integer.toHexString and
 * left-padded with '0' to two characters.
 */
module HexDigest {
  import opened Optional

  /** An unsigned byte, as the C# binding of MessageDigest.Digest() returns them. */
  type Byte = b: int | 0 <= b < 0x100

  /** The characters of a lower-case hex rendering: 0-9 and a-f. */
  predicate IsHexChar(c: char)
  {
    '0' <= c <= '9' || 'a' <= c <= 'f'
  }

  /** The lower-case hex digit for 0..15. */
  function HexDigit(n: int): (c: char)
    requires 0 <= n < 16
    ensures IsHexChar(c)
  {
    if n < 10 then ('0' as int + n) as char else ('a' as int + n - 10) as char
  }

  /** The value of a lower-case hex digit; the inverse of HexDigit. */
  function HexValue(c: char): (r: Option<int>)
    ensures r.Some? <==> IsHexChar(c)
    ensures r.Some? ==> 0 <= r.value < 16 && HexDigit(r.value) == c
  {
    if '0' <= c <= '9' then Some(c as int - '0' as int)
    else if 'a' <= c <= 'f' then Some(c as int - 'a' as int + 10)
    else None
  }

  lemma HexValueOfDigit(n: int)
    requires 0 <= n < 16
    ensures HexValue(HexDigit(n)) == Some(n)
  {
  }

  /**
   * Java's Integer.toHexString on a non-negative int: lower-case hex digits without
   * leading zeros, so "0" only for 0.
   */
  function ToHexString(n: nat): (s: string)
    ensures |s| >= 1 && (s[0] == '0' <==> n == 0)
    ensures n < 16 <==> |s| == 1
  {
    if n < 16 then [HexDigit(n)] else ToHexString(n / 16) + [HexDigit(n % 16)]
  }

  /** The two characters a byte becomes in the rendering. */
  function Pair(b: Byte): string
  {
    [HexDigit(b / 16), HexDigit(b % 16)]
  }

  /** Integer.toHexString of a byte is its pair without a leading '0'. */
  lemma ToHexStringOfByte(b: Byte)
    ensures |ToHexString(b)| == 1 || |ToHexString(b)| == 2
    ensures |ToHexString(b)| == 2 ==> ToHexString(b) == Pair(b)
    ensures |ToHexString(b)| == 1 ==> ToHexString(b) == [Pair(b)[1]] && Pair(b)[0] == '0'
  {
    if b >= 16 {
      assert ToHexString(b / 16) == [HexDigit(b / 16)];
    }
  }

  /** The rendering of a whole digest, one pair per byte, in order. */
  function HexOf(digest: seq<Byte>): string
  {
    if |digest| == 0 then "" else HexOf(digest[..|digest| - 1]) + Pair(digest[|digest| - 1])
  }

  /** Reads a rendering back: pairs of lower-case hex digits, one byte each. */
  function ParseHex(s: string): Option<seq<Byte>>
  {
    if |s| == 0 then Some([])
    else if |s| == 1 then None
    else
      var front, hi, lo := ParseHex(s[..|s| - 2]), HexValue(s[|s| - 2]), HexValue(s[|s| - 1]);
      if front.Some? && hi.Some? && lo.Some? then Some(front.value + [hi.value * 16 + lo.value])
      else None
  }

  /** One step of ParseHex: the last two characters are read as one byte. */
  lemma ParseHexLastPair(s: string, front: seq<Byte>, b: Byte)
    requires |s| >= 2 && ParseHex(s[..|s| - 2]) == Some(front)
    requires s[|s| - 2] == HexDigit(b / 16) && s[|s| - 1] == HexDigit(b % 16)
    ensures ParseHex(s) == Some(front + [b])
  {
    HexValueOfDigit(b / 16);
    HexValueOfDigit(b % 16);
    assert HexValue(s[|s| - 2]) == Some(b / 16) && HexValue(s[|s| - 1]) == Some(b % 16);
    assert (b / 16) * 16 + b % 16 == b;
  }

  /** What GetMD5 returns: the rendering, or "" when MD5 is unavailable (NoSuchAlgorithmException). */
  function Md5Hex(md5: string -> Option<seq<Byte>>, s: string): string
  {
    match md5(s)
    case None => ""
    case Some(digest) => HexOf(digest)
  }

  /** An n-byte digest renders as 2n characters. */
  lemma {:induction false} HexOfLength(digest: seq<Byte>)
    ensures |HexOf(digest)| == 2 * |digest|
  {
    if |digest| > 0 {
      HexOfLength(digest[..|digest| - 1]);
    }
  }

  /** Only the characters 0-9 and a-f occur. */
  lemma {:induction false} HexOfAlphabet(digest: seq<Byte>)
    ensures forall i :: 0 <= i < |HexOf(digest)| ==> IsHexChar(HexOf(digest)[i])
  {
    if |digest| > 0 {
      HexOfAlphabet(digest[..|digest| - 1]);
    }
  }

  /** Byte i of the digest is exactly characters 2i and 2i+1 of the rendering. */
  lemma {:induction false} HexOfPairAt(digest: seq<Byte>, i: nat)
    requires i < |digest|
    ensures |HexOf(digest)| == 2 * |digest|
    ensures HexOf(digest)[2 * i..2 * i + 2] == Pair(digest[i])
  {
    HexOfLength(digest);
    var front := digest[..|digest| - 1];
    HexOfLength(front);
    if i < |digest| - 1 {
      HexOfPairAt(front, i);
      assert HexOf(digest)[2 * i..2 * i + 2] == HexOf(front)[2 * i..2 * i + 2];
    } else {
      assert HexOf(digest)[2 * i..2 * i + 2] == Pair(digest[i]);
    }
  }

  /** Reading a rendering back gives the digest. */
  lemma {:induction false} ParseHexOfHexOf(digest: seq<Byte>)
    ensures ParseHex(HexOf(digest)) == Some(digest)
  {
    if |digest| > 0 {
      var front, b := digest[..|digest| - 1], digest[|digest| - 1];
      var s := HexOf(digest);
      ParseHexOfHexOf(front);
      HexOfLength(digest);
      HexOfLength(front);
      assert s[..|s| - 2] == HexOf(front);
      assert s[|s| - 2] == HexDigit(b / 16) && s[|s| - 1] == HexDigit(b % 16);
      ParseHexLastPair(s, front, b);
      assert front + [b] == digest;
    }
  }

  /** Whatever ParseHex accepts is the rendering of what it returns. */
  lemma {:induction false} HexOfParseHex(s: string, digest: seq<Byte>)
    requires ParseHex(s) == Some(digest)
    ensures HexOf(digest) == s
    decreases |s|
  {
    if |s| >= 2 {
      var init, c1, c2 := s[..|s| - 2], s[|s| - 2], s[|s| - 1];
      ParseHexStep(s, digest);
      var front := ParseHex(init).value;
      var hi, lo := HexValue(c1).value, HexValue(c2).value;
      HexOfParseHex(init, front);
      PairOfDigits(hi, lo);
      HexOfSnoc(front, hi * 16 + lo);
      assert s == init + [c1, c2];
    }
  }

  /** Unfolds one step of a successful ParseHex. */
  lemma ParseHexStep(s: string, digest: seq<Byte>)
    requires |s| >= 2 && ParseHex(s) == Some(digest)
    ensures ParseHex(s[..|s| - 2]).Some?
    ensures IsHexChar(s[|s| - 2]) && IsHexChar(s[|s| - 1])
    ensures digest == ParseHex(s[..|s| - 2]).value + [HexValue(s[|s| - 2]).value * 16 + HexValue(s[|s| - 1]).value]
  {
  }

  lemma PairOfDigits(hi: int, lo: int)
    requires 0 <= hi < 16 && 0 <= lo < 16
    ensures Pair(hi * 16 + lo) == [HexDigit(hi), HexDigit(lo)]
  {
    var b := hi * 16 + lo;
    assert b / 16 == hi && b % 16 == lo;
  }

  lemma HexOfSnoc(front: seq<Byte>, b: Byte)
    ensures HexOf(front + [b]) == HexOf(front) + Pair(b)
  {
    assert (front + [b])[..|front|] == front;
  }

  /** Distinct digests render differently. */
  lemma HexOfInjective(d1: seq<Byte>, d2: seq<Byte>)
    requires HexOf(d1) == HexOf(d2)
    ensures d1 == d2
  {
    ParseHexOfHexOf(d1);
    ParseHexOfHexOf(d2);
  }

  /**
   * GetMD5, with the digest taken from the platform's `md5`. The loop appends one
   * padded pair per byte.
   */
  method GetMD5(md5: string -> Option<seq<Byte>>, s: string) returns (hex: string)
    ensures hex == Md5Hex(md5, s)
    ensures md5(s).Some? ==> |hex| == 2 * |md5(s).value|
  {
    match md5(s) {
      case None =>
        hex := "";
      case Some(digest) =>
        var buffer := "";
        var i := 0;
        while i < |digest|
          invariant 0 <= i <= |digest|
          invariant buffer == HexOf(digest[..i])
        {
          var b := digest[i];
          var v := b % 0x100;  // 0xFF & b, the identity on an unsigned byte
          assert v == b;
          var h := ToHexString(v);
          ToHexStringOfByte(b);
          while |h| < 2
            invariant 1 <= |h| <= 2
            invariant |h| == 2 ==> h == Pair(b)
            invariant |h| == 1 ==> h == [Pair(b)[1]] && Pair(b)[0] == '0'
          {
            h := "0" + h;
          }
          assert h == Pair(b);
          assert digest[..i + 1][..i] == digest[..i];
          buffer := buffer + h;
          i := i + 1;
        }
        assert digest[..i] == digest;
        hex := buffer;
        HexOfLength(digest);
    }
  }
}
