/**
 * PHP's `urlencode` and `urldecode`. The encoding is close to the
 * application/x-www-form-urlencoded encoding of section 17.13.4.1 of
 * HTML 4.01, except that `-_.` are kept and line breaks are not
 * normalised: letters, digits and `-_.` pass through, a space becomes
 * `+`, and every other byte becomes `%XX` with two upper-case
 * hexadecimal digits (the percent-encoding of section 2.1 of RFC 3986).
 */
module UrlEncoding {
  import opened PhpStrings

  const HexDigits: PhpString := "0123456789ABCDEF"

  /** The bytes urlencode copies unchanged: A-Z a-z 0-9 - _ . */
  predicate IsUnreserved(c: Byte) {
    ('A' <= c <= 'Z') || ('a' <= c <= 'z') || ('0' <= c <= '9') || c == '-' || c == '_' || c == '.'
  }

  predicate IsUpperHex(c: Byte) {
    ('0' <= c <= '9') || ('A' <= c <= 'F')
  }

  /** urldecode accepts hexadecimal digits of either case after `%`. */
  predicate IsHex(c: Byte) {
    IsUpperHex(c) || ('a' <= c <= 'f')
  }

  function HexValue(c: Byte): (n: nat)
    requires IsHex(c)
    ensures n < 16
    ensures IsUpperHex(c) ==> HexDigits[n] == c
  {
    if '0' <= c <= '9' then c as int - '0' as int
    else if 'A' <= c <= 'F' then c as int - 'A' as int + 10
    else c as int - 'a' as int + 10
  }

  lemma HexDigitValue(n: nat)
    requires n < 16
    ensures IsUpperHex(HexDigits[n]) && HexValue(HexDigits[n]) == n
  {
  }

  /** The encoding of one byte. */
  function EncodeByte(c: Byte): PhpString {
    if c == ' ' then "+"
    else if IsUnreserved(c) then [c]
    else ['%', HexDigits[c as int / 16], HexDigits[c as int % 16]]
  }

  /** PHP `urlencode`, byte by byte. */
  function UrlEncode(s: PhpString): (e: PhpString)
    ensures |s| <= |e| <= 3 * |s|
  {
    if s == [] then [] else EncodeByte(s[0]) + UrlEncode(s[1..])
  }

  /**
   * PHP `urldecode`: `+` becomes a space, `%` followed by two hexadecimal
   * digits becomes the byte they denote, and every other byte (a `%` not
   * followed by two hexadecimal digits included) is copied.
   */
  function UrlDecode(e: PhpString): (s: PhpString)
    ensures |s| <= |e|
  {
    if e == [] then []
    else if e[0] == '+' then [' '] + UrlDecode(e[1..])
    else if e[0] == '%' && |e| >= 3 && IsHex(e[1]) && IsHex(e[2]) then
      [(HexValue(e[1]) * 16 + HexValue(e[2])) as char] + UrlDecode(e[3..])
    else [e[0]] + UrlDecode(e[1..])
  }

  /**
   * The strings urlencode can produce: unreserved bytes, `+`, and `%XX`
   * triples with upper-case digits that denote a byte which is neither
   * unreserved nor a space.
   */
  predicate IsUrlEncoded(e: PhpString)
    decreases |e|
  {
    if e == [] then true
    else if e[0] == '%' then
      && |e| >= 3 && IsUpperHex(e[1]) && IsUpperHex(e[2])
      && var c := (HexValue(e[1]) * 16 + HexValue(e[2])) as char;
         !IsUnreserved(c) && c != ' ' && IsUrlEncoded(e[3..])
    else (IsUnreserved(e[0]) || e[0] == '+') && IsUrlEncoded(e[1..])
  }

  lemma EncodeByteThenDecode(c: Byte, rest: PhpString)
    ensures UrlDecode(EncodeByte(c) + rest) == [c] + UrlDecode(rest)
  {
    var e := EncodeByte(c) + rest;
    if c == ' ' {
      assert e[1..] == rest;
    } else if IsUnreserved(c) {
      assert e[1..] == rest;
    } else {
      var hi, lo := c as int / 16, c as int % 16;
      HexDigitValue(hi);
      HexDigitValue(lo);
      assert e[3..] == rest;
    }
  }

  /** Decoding undoes encoding: urldecode(urlencode(s)) == s. */
  lemma {:induction false} DecodeEncode(s: PhpString)
    ensures UrlDecode(UrlEncode(s)) == s
  {
    if s != [] {
      EncodeByteThenDecode(s[0], UrlEncode(s[1..]));
      DecodeEncode(s[1..]);
    }
  }

  /** Everything urlencode produces has the shape IsUrlEncoded describes. */
  lemma {:induction false} EncodeIsUrlEncoded(s: PhpString)
    ensures IsUrlEncoded(UrlEncode(s))
  {
    if s != [] {
      EncodeIsUrlEncoded(s[1..]);
      var c, rest := s[0], UrlEncode(s[1..]);
      var e := EncodeByte(c) + rest;
      assert UrlEncode(s) == e;
      if c == ' ' || IsUnreserved(c) {
        assert e[1..] == rest;
      } else {
        HexDigitValue(c as int / 16);
        HexDigitValue(c as int % 16);
        assert e[3..] == rest;
      }
    }
  }

  /** A canonical `%XX` triple decodes to one byte that encodes back to the triple. */
  lemma EscapeRoundTrip(e: PhpString) returns (c: Byte)
    requires e != [] && e[0] == '%' && IsUrlEncoded(e)
    ensures UrlDecode(e) == [c] + UrlDecode(e[3..])
    ensures EncodeByte(c) == e[..3]
  {
    var h, l := HexValue(e[1]), HexValue(e[2]);
    c := (h * 16 + l) as char;
    assert c as int / 16 == h && c as int % 16 == l;
    assert e[..3] == ['%', e[1], e[2]];
  }

  /** Encoding undoes decoding on every string urlencode can produce. */
  lemma {:induction false} EncodeDecode(e: PhpString)
    requires IsUrlEncoded(e)
    ensures UrlEncode(UrlDecode(e)) == e
  {
    if e != [] {
      if e[0] == '%' {
        var c := EscapeRoundTrip(e);
        EncodeDecode(e[3..]);
        assert e == e[..3] + e[3..];
      } else {
        EncodeDecode(e[1..]);
        assert e == [e[0]] + e[1..];
      }
    }
  }

  /** urlencode output uses only A-Z a-z 0-9 - _ . + and %. */
  lemma {:induction false} UrlEncodedAlphabet(e: PhpString)
    requires IsUrlEncoded(e)
    ensures forall i :: 0 <= i < |e| ==> IsUnreserved(e[i]) || e[i] == '+' || e[i] == '%'
    decreases |e|
  {
    if e != [] {
      var k := if e[0] == '%' then 3 else 1;
      UrlEncodedAlphabet(e[k..]);
      assert forall i :: k <= i < |e| ==> e[i] == e[k..][i - k];
    }
  }

  /** urlencode changes a string exactly when it holds a byte outside A-Z a-z 0-9 - _ . */
  lemma {:induction false} EncodeIdentity(s: PhpString)
    ensures UrlEncode(s) == s <==> forall i :: 0 <= i < |s| ==> IsUnreserved(s[i])
  {
    if s != [] {
      EncodeIdentity(s[1..]);
      var e := UrlEncode(s);
      if IsUnreserved(s[0]) {
        assert e == [s[0]] + UrlEncode(s[1..]);
        assert s == [s[0]] + s[1..];
        assert (forall i :: 0 <= i < |s| ==> IsUnreserved(s[i])) <==>
               (forall i :: 0 <= i < |s[1..]| ==> IsUnreserved(s[1..][i]));
      } else if s[0] == ' ' {
        assert e[0] == '+';
      } else {
        assert |e| >= |s| + 2;
      }
    }
  }

  /** urlencode is injective, because urldecode undoes it. */
  lemma EncodeInjective(s: PhpString, t: PhpString)
    requires UrlEncode(s) == UrlEncode(t)
    ensures s == t
  {
    DecodeEncode(s);
    DecodeEncode(t);
  }
}
